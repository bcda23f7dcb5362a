/** The Italian fraction verbalizer. A fraction token carries an optional integer part, a
    numerator and a denominator; the denominator is marked as an ordinal, as a word that
    takes the ordinal stem ("add_root"), or is a bare cardinal. The verbalizer reads the
    "un" numerator with a singular denominator ("un quarto"), any other numerator with a
    plural one ("tre quarti"), and a cardinal denominator with "fratto" ("tre fratto
    diciassette"). Feminine variants shift the gender of the integer part and turn
    "mezzo" into "mezza". */
module Fraction {
  import opened Strings
  import opened Fst
  import opened Rewrite
  import opened GraphUtils
  import opened Merge

  const IntegerOpen := "integer_part: \""
  const NumeratorOpen := "numerator: \""
  const NumeratorClose := "\" "
  const DenominatorOpen := "denominator: \""

  /** The numerator field holding "un". */
  const NumeratorUn := NumeratorOpen + ("un" + NumeratorClose)

  /** The text after a marked denominator: its closing quote and the feature field. */
  function FeatureClose(feature: string): string {
    "\" morphosyntactic_features: \"" + feature + "\""
  }

  // ---------------------------------------------------------------------------
  // Fields

  /** The integer part, with the apocope of its cardinal undone. */
  function Integer(u: Helpers): Rel {
    Field(IntegerOpen, Map(NotQuoteStar(0), u.stripCardinalApocope), "\"")
  }

  /** The numerator "un". */
  function NumeratorOne(): Rel {
    Field(NumeratorOpen, Accep("un"), NumeratorClose)
  }

  /** Every other numerator. */
  function Numerator(): Rel {
    Field(NumeratorOpen, Minus(NotQuoteStar(0), "un"), NumeratorClose)
  }

  function DenominatorWith(feature: string): Rel {
    Field(DenominatorOpen, NotQuoteStar(0), FeatureClose(feature))
  }

  function DenominatorCardinal(): Rel {
    Field(DenominatorOpen, NotQuoteStar(0), "\"")
  }

  function DenominatorSingular(): Rel {
    Union(DenominatorWith("add_root"), DenominatorWith("ordinal"))
  }

  /** Reads an "o" and writes an "i" in its place. */
  function PluralEnding(): Rel {
    Concat(Delete("o"), Insert("i"))
  }

  function DenominatorPlural(): Rel {
    Concat(DenominatorSingular(), PluralEnding())
  }

  // ---------------------------------------------------------------------------
  // Branches

  /** `g`'s output merged into a single word. */
  function Merged(g: Rel, u: Helpers): Rel {
    Map(g, MergeWith(u))
  }

  function MergeWith(u: Helpers): string -> string {
    s => MergeIntoSingleWord(s, u.accents)
  }

  function FractionDefault(u: Helpers): Rel {
    SpaceSeparated(Numerator(), Merged(DenominatorPlural(), u))
  }

  /** The "un" branch before "un mezzo" is shortened. */
  function FractionWithOneSpelled(u: Helpers): Rel {
    SpaceSeparated(NumeratorOne(), Merged(DenominatorSingular(), u))
  }

  /** "un mezzo" is said "mezzo". */
  function DropUn(s: string): string {
    ReplaceAll(s, "un mezzo", "mezzo")
  }

  function FractionWithOne(u: Helpers): Rel {
    Map(FractionWithOneSpelled(u), DropUn)
  }

  function FractionWithCardinal(u: Helpers): Rel {
    Concat(Map(Union(Numerator(), NumeratorOne()), u.stripCardinalApocope),
      Concat(DeleteSpace(), Concat(Insert(" fratto "), Map(DenominatorCardinal(), u.stripCardinalApocope))))
  }

  function FractionMasc(u: Helpers): Rel {
    Union(Union(FractionWithOne(u), FractionDefault(u)), FractionWithCardinal(u))
  }

  /** The conjunction written between the integer part and the fraction. */
  function Conjunction(): Rel {
    Insert(" e ")
  }

  /** An optional integer part joined to the fraction by white space read and the
      conjunction written. */
  function WithIntegerPart(integer: Rel, fraction: Rel): Rel {
    Concat(Opt(Concat(integer, Concat(DeleteSpace(), Conjunction()))), fraction)
  }

  function GraphMasc(u: Helpers): Rel {
    WithIntegerPart(Integer(u), FractionMasc(u))
  }

  /** `g` restricted to the output "mezzo", written "mezza". */
  function Mezza(g: Rel): Rel {
    Compose(g, Cross("mezzo", "mezza"))
  }

  function FractionDefaultFem(u: Helpers): Rel {
    Union(FractionDefault(u), SpaceSeparated(Map(Numerator(), u.shiftCardinalGender), Mezza(DenominatorPlural())))
  }

  /** "un mezzo" in the feminine: the numerator is read and dropped, "mezza" is written. */
  function MezzaWithOne(): Rel {
    Concat(DeleteInput(NumeratorOne()), Concat(DeleteSpace(), Mezza(DenominatorSingular())))
  }

  function FractionWithOneFem(u: Helpers): Rel {
    Union(FractionWithOne(u), MezzaWithOne())
  }

  function FractionFem(u: Helpers): Rel {
    Union(Union(FractionWithOneFem(u), FractionDefaultFem(u)), FractionWithCardinal(u))
  }

  function IntegerFem(u: Helpers): Rel {
    Map(Integer(u), u.shiftCardinalGender)
  }

  function GraphFem(u: Helpers): Rel {
    WithIntegerPart(IntegerFem(u), FractionFem(u))
  }

  function Graph(u: Helpers): Rel {
    Union(GraphMasc(u), GraphFem(u))
  }

  // ---------------------------------------------------------------------------
  // Properties: fields

  /** A quote-free numerator is read by exactly one of the two numerator fields: "un" by
      the one that leads to a singular denominator, anything else by the one that leads
      to a plural denominator. Each writes the numerator unchanged. */
  lemma NumeratorRouting(v: string, o: string)
    requires QuoteFree(v)
    ensures o in NumeratorOne()(NumeratorOpen + (v + NumeratorClose)) <==> v == "un" && o == v
    ensures o in Numerator()(NumeratorOpen + (v + NumeratorClose)) <==> v != "un" && o == v
  {
    TextOrLiteralRouting(NumeratorOpen, "un", NumeratorClose, v, o);
  }

  /** A numerator field holds no quote. */
  lemma NumeratorShape(s: string, o: string)
    requires o in Numerator()(s) || o in NumeratorOne()(s)
    ensures s == NumeratorOpen + (o + NumeratorClose) && QuoteFree(o)
  {
    NumeratorUnShape();
    TextOrLiteralFieldSound(NumeratorOpen, "un", NumeratorClose, s, o);
  }

  /** A marked denominator is read with either feature and written unchanged. */
  lemma SingularExact(s: string, o: string)
    ensures o in DenominatorSingular()(s)
        <==> QuoteFree(o) && (s == DenominatorOpen + (o + FeatureClose("add_root"))
                              || s == DenominatorOpen + (o + FeatureClose("ordinal")))
  {
    FieldTextExact(DenominatorOpen, FeatureClose("add_root"), s, o);
    FieldTextExact(DenominatorOpen, FeatureClose("ordinal"), s, o);
  }

  /** The plural ending after any singular grammar (`DenominatorPlural` is the marked
      singular followed by it): one more "o" is read after what the singular reads, and
      the singular's text is written with "i" appended. */
  lemma PluralExact(singular: Rel, s: string, o: string)
    ensures o in Concat(singular, PluralEnding())(s)
        <==> EndsWith(s, "o") && EndsWith(o, "i") && o[..|o| - 1] in singular(s[..|s| - 1])
  {
    ThenReplaceExact(singular, "o", "i", s, o);
  }

  /** The feminine "mezza" cannot come from a plural denominator, which ends in "i":
      that branch is empty. */
  lemma MezzaPluralEmpty(s: string)
    ensures Mezza(DenominatorPlural())(s) == {}
  {
    MezzoNotPlural();
    ReplaceThenCrossEmpty(DenominatorSingular(), "o", "i", "mezzo", "mezza", s);
  }

  /** The "un" numerator field is the only text it reads. */
  lemma NumeratorOneShape(s: string, o: string)
    requires o in NumeratorOne()(s)
    ensures o == "un" && s == NumeratorUn
  {
    var v := FieldSound(NumeratorOpen, Accep("un"), NumeratorClose, s, o);
  }

  // ---------------------------------------------------------------------------
  // Properties: "un mezzo"

  /** The shortening of "un mezzo" on "un" and a single word `m`: when `m` starts with
      "mezzo" the "un " is dropped, otherwise nothing changes; "un mezzo" is left nowhere. */
  lemma DropUnExact(m: string)
    requires NoInnerSpace(m)
    ensures DropUn("un" + (" " + m)) == (if StartsWith(m, "mezzo") then m else "un" + (" " + m))
    ensures !Contains(DropUn("un" + (" " + m)), "un mezzo")
  {
    if StartsWith(m, "mezzo") {
      DropUnBeforeMezzo(m);
    } else {
      DropUnElsewhere(m);
    }
  }

  lemma DropUnBeforeMezzo(m: string)
    requires NoInnerSpace(m) && StartsWith(m, "mezzo")
    ensures DropUn("un" + (" " + m)) == m && !Contains(m, "un mezzo")
  {
    var p := "un mezzo";
    var s := "un" + (" " + m);
    NoInnerSpaceExcludes(m, p, 2);
    assert s[3..] == m;
    assert s[..8] == "un " + m[..5];
    assert StartsWith(s, p);
    assert s[8..] == m[5..];
    NotContainsSuffix(m, p, 5);
    ReplaceAllIdentity(m[5..], p, "mezzo");
    assert m == "mezzo" + m[5..] by {
      assert m[..5] == "mezzo";
    }
  }

  lemma DropUnElsewhere(m: string)
    requires NoInnerSpace(m) && !StartsWith(m, "mezzo")
    ensures DropUn("un" + (" " + m)) == "un" + (" " + m) && !Contains("un" + (" " + m), "un mezzo")
  {
    var p := "un mezzo";
    var s := "un" + (" " + m);
    NoInnerSpaceExcludes(m, p, 2);
    assert s[3..] == m;
    assert !StartsWith(s, p) by {
      if |s| >= 8 {
        assert s[..8][3..] == m[..5];
      }
    }
    assert s[1..][1..] == s[2..] && s[2..][1..] == m;
    ReplaceAllSkip(s[1..], p, "mezzo");
    ReplaceAllSkip(s[2..], p, "mezzo");
    ReplaceAllIdentity(m, p, "mezzo");
    assert DropUn(s) == [s[0]] + ReplaceAll(s[1..], p, "mezzo");
    assert [s[0]] + ([s[1]] + ([s[2]] + m)) == s;
    assert s[1..] == "n " + m;
    if Contains(s[1..], p) {
      ContainsSkipPrefix("n ", m, p);
    }
  }

  /** The merge, as the verbalizer applies it, keeps a single word single and leaves no
      " e " behind. */
  lemma MergedIsWord(u: Helpers, d: string)
    requires WellShaped(u)
    ensures NoInnerSpace(MergeWith(u)(d)) && !Contains(MergeWith(u)(d), " e ")
  {
    MergeIntoSingleWordIsWord(d, u.accents);
  }

  /** "mezzo" goes through the merge unchanged. */
  lemma MergedMezzo(u: Helpers)
    requires WellShaped(u)
    ensures MergeWith(u)("mezzo") == "mezzo"
  {
    forall i | 0 <= i < 5 ensures "mezzo"[i] !in u.accents {
      assert "mezzo"[i] as int < 128;
    }
    NotContainsPair("mezzo", "aa");
    NotContainsPair("mezzo", "oo");
    MergeKeepsPlainWord("mezzo", u.accents);
  }

  /** The "un" branch before shortening reads the numerator "un", white space and a
      marked denominator, and says "un" and the merged denominator. */
  lemma WithOneSpelledSound(u: Helpers, s: string, x: string) returns (w: string, y: string, d: string)
    requires x in FractionWithOneSpelled(u)(s)
    ensures s == NumeratorUn + (w + y) && AllWhiteSpace(w) && d in DenominatorSingular()(y)
    ensures x == "un" + (" " + MergeWith(u)(d))
  {
    NumeratorUnShape();
    WithOneSpelledUnfold(u);
    NumeratorOneUnfold();
    w, y, d := LiteralFieldThenWordSound(NumeratorOpen, "un", NumeratorClose, DenominatorSingular(), MergeWith(u), s, x);
  }

  lemma WithOneSpelledUnfold(u: Helpers)
    ensures FractionWithOneSpelled(u) == SpaceSeparated(NumeratorOne(), Map(DenominatorSingular(), MergeWith(u)))
  {
  }

  lemma NumeratorOneUnfold()
    ensures NumeratorOne() == Field(NumeratorOpen, Accep("un"), NumeratorClose)
  {
  }

  lemma WithOneSpelledComplete(u: Helpers, w: string, y: string, d: string)
    requires AllWhiteSpace(w) && d in DenominatorSingular()(y)
    ensures "un" + (" " + MergeWith(u)(d)) in FractionWithOneSpelled(u)(NumeratorUn + (w + y))
  {
    NumeratorUnShape();
    LiteralFieldThenWordComplete(NumeratorOpen, "un", NumeratorClose, DenominatorSingular(), MergeWith(u), w, y, d);
  }

  lemma WithOneShortened(u: Helpers, s: string, o: string) returns (x: string)
    requires o in FractionWithOne(u)(s)
    ensures x in FractionWithOneSpelled(u)(s) && o == DropUn(x)
  {
    x := MapElim(FractionWithOneSpelled(u), DropUn, s, o);
  }

  lemma ShortenedUn(m: string, x: string, o: string)
    requires NoInnerSpace(m) && x == "un" + (" " + m) && o == DropUn(x)
    ensures o == (if StartsWith(m, "mezzo") then m else x)
    ensures StartsWith(o, "un ") || StartsWith(o, "mezzo")
    ensures !Contains(o, "un mezzo")
  {
    DropUnExact(m);
    if !StartsWith(m, "mezzo") {
      assert x[..3] == "un ";
    }
  }

  /** The "un" branch reads only the numerator "un"; it says "un" and the merged singular
      denominator, or only that denominator when it starts with "mezzo", and never says
      "un mezzo". */
  lemma WithOneNeverSaysUnMezzo(u: Helpers, s: string, o: string)
    requires WellShaped(u) && o in FractionWithOne(u)(s)
    ensures StartsWith(s, NumeratorUn)
    ensures StartsWith(o, "un ") || StartsWith(o, "mezzo")
    ensures !Contains(o, "un mezzo")
  {
    var x := WithOneShortened(u, s, o);
    var w, y, d := WithOneSpelledSound(u, s, x);
    MergedIsWord(u, d);
    ShortenedUn(MergeWith(u)(d), x, o);
    StartsWithConcat(NumeratorUn, w + y);
  }

  lemma UnMezzoShortened()
    ensures DropUn("un" + (" " + "mezzo")) == "mezzo"
  {
    DropUnExact("mezzo");
    assert StartsWith("mezzo", "mezzo");
  }

  /** The "un" branch says the shortened "un" and merged denominator. */
  lemma WithOneComplete(u: Helpers, w: string, y: string, d: string, o: string)
    requires AllWhiteSpace(w) && d in DenominatorSingular()(y)
    requires o == DropUn("un" + (" " + MergeWith(u)(d)))
    ensures o in FractionWithOne(u)(NumeratorUn + (w + y))
  {
    WithOneSpelledComplete(u, w, y, d);
    MapIntro(FractionWithOneSpelled(u), DropUn, NumeratorUn + (w + y), "un" + (" " + MergeWith(u)(d)));
  }

  /** "un mezzo" with a marked denominator "mezzo" is said "mezzo". */
  lemma WithOneMezzo(u: Helpers, w: string, y: string)
    requires WellShaped(u) && AllWhiteSpace(w) && "mezzo" in DenominatorSingular()(y)
    ensures "mezzo" in FractionWithOne(u)(NumeratorUn + (w + y))
  {
    MergedMezzo(u);
    UnMezzoShortened();
    WithOneComplete(u, w, y, "mezzo", "mezzo");
  }

  // ---------------------------------------------------------------------------
  // Properties: the plural branch

  lemma DefaultSound(u: Helpers, s: string, o: string) returns (v: string, w: string, y: string, p: string)
    requires o in FractionDefault(u)(s)
    ensures s == (NumeratorOpen + (v + NumeratorClose)) + (w + y)
    ensures QuoteFree(v) && v != "un" && AllWhiteSpace(w) && p in DenominatorPlural()(y)
    ensures o == v + (" " + MergeWith(u)(p))
  {
    v, w, y, p := TextFieldThenWordSound(NumeratorOpen, "un", NumeratorClose, DenominatorPlural(), MergeWith(u), s, o);
  }

  lemma DefaultComplete(u: Helpers, v: string, w: string, y: string, p: string)
    requires QuoteFree(v) && v != "un" && AllWhiteSpace(w) && p in DenominatorPlural()(y)
    ensures v + (" " + MergeWith(u)(p)) in FractionDefault(u)((NumeratorOpen + (v + NumeratorClose)) + (w + y))
  {
    TextFieldThenWordComplete(NumeratorOpen, "un", NumeratorClose, DenominatorPlural(), MergeWith(u), v, w, y, p);
  }

  lemma NumeratorUnShape()
    ensures QuoteFree("un") && |NumeratorClose| > 0 && NumeratorClose[0] == '"'
    ensures NumeratorUn == NumeratorOpen + ("un" + NumeratorClose)
  {
  }

  /** A token whose numerator is "un" has no reading in the plural branch. */
  lemma DefaultNeverReadsUn(u: Helpers, s: string, o: string)
    requires o in FractionDefault(u)(s)
    ensures !StartsWith(s, NumeratorUn)
  {
    var v, w, y, p := DefaultSound(u, s, o);
    NumeratorUnShape();
    FieldTextNotLiteral(NumeratorOpen, v, NumeratorClose, "un", s, w + y);
  }

  // ---------------------------------------------------------------------------
  // Properties: "fratto"

  /** A cardinal denominator field holds no quote and is written unchanged. */
  lemma DenominatorCardinalExact(s: string, o: string)
    ensures o in DenominatorCardinal()(s) <==> s == DenominatorOpen + (o + "\"") && QuoteFree(o)
  {
    FieldTextExact(DenominatorOpen, "\"", s, o);
  }

  /** Either numerator field, with the apocope undone. */
  lemma NumeratorApocopeSound(u: Helpers, x: string, a: string) returns (n: string)
    requires a in Map(Union(Numerator(), NumeratorOne()), u.stripCardinalApocope)(x)
    ensures x == NumeratorOpen + (n + NumeratorClose) && QuoteFree(n) && a == u.stripCardinalApocope(n)
  {
    n := MapElim(Union(Numerator(), NumeratorOne()), u.stripCardinalApocope, x, a);
    NumeratorShape(x, n);
  }

  lemma NumeratorApocopeComplete(u: Helpers, n: string)
    requires QuoteFree(n)
    ensures u.stripCardinalApocope(n) in Map(Union(Numerator(), NumeratorOne()), u.stripCardinalApocope)(NumeratorOpen + (n + NumeratorClose))
  {
    NumeratorRouting(n, n);
    MapIntro(Union(Numerator(), NumeratorOne()), u.stripCardinalApocope, NumeratorOpen + (n + NumeratorClose), n);
  }

  lemma DenominatorApocopeSound(u: Helpers, y: string, c: string) returns (d: string)
    requires c in Map(DenominatorCardinal(), u.stripCardinalApocope)(y)
    ensures y == DenominatorOpen + (d + "\"") && QuoteFree(d) && c == u.stripCardinalApocope(d)
  {
    d := MapElim(DenominatorCardinal(), u.stripCardinalApocope, y, c);
    DenominatorCardinalExact(y, d);
  }

  lemma DenominatorApocopeComplete(u: Helpers, d: string)
    requires QuoteFree(d)
    ensures u.stripCardinalApocope(d) in Map(DenominatorCardinal(), u.stripCardinalApocope)(DenominatorOpen + (d + "\""))
  {
    DenominatorCardinalExact(DenominatorOpen + (d + "\""), d);
    MapIntro(DenominatorCardinal(), u.stripCardinalApocope, DenominatorOpen + (d + "\""), d);
  }

  /** Any quote-free numerator, "un" included, and a cardinal denominator are said with
      "fratto" between them, each with its apocope undone. */
  lemma FrattoComplete(u: Helpers, n: string, w: string, d: string)
    requires QuoteFree(n) && QuoteFree(d) && AllWhiteSpace(w)
    ensures u.stripCardinalApocope(n) + (" fratto " + u.stripCardinalApocope(d))
         in FractionWithCardinal(u)((NumeratorOpen + (n + NumeratorClose)) + (w + (DenominatorOpen + (d + "\""))))
  {
    JoinedTextFieldsComplete(NumeratorOpen, "un", NumeratorClose, " fratto ", DenominatorOpen, "\"",
                             u.stripCardinalApocope, n, w, d);
  }

  /** The "fratto" branch reads nothing else. */
  lemma FrattoSound(u: Helpers, s: string, o: string) returns (n: string, w: string, d: string)
    requires o in FractionWithCardinal(u)(s)
    ensures QuoteFree(n) && QuoteFree(d) && AllWhiteSpace(w)
    ensures s == (NumeratorOpen + (n + NumeratorClose)) + (w + (DenominatorOpen + (d + "\"")))
    ensures o == u.stripCardinalApocope(n) + (" fratto " + u.stripCardinalApocope(d))
  {
    NumeratorUnShape();
    n, w, d := JoinedTextFieldsSound(NumeratorOpen, "un", NumeratorClose, " fratto ", DenominatorOpen, "\"",
                                     u.stripCardinalApocope, s, o);
  }

  // ---------------------------------------------------------------------------
  // Properties: the integer part

  lemma IntegerPartIntro(integer: Rel, fraction: Rel, x: string, w: string, t: string, a: string, f: string)
    requires a in integer(x) && AllWhiteSpace(w) && f in fraction(t)
    ensures a + (" e " + f) in WithIntegerPart(integer, fraction)(x + (w + t))
  {
    PrefixJoinedIntro(integer, " e ", fraction, x, w, t, a, f);
    OptThenTaken(Concat(integer, Concat(DeleteSpace(), Conjunction())), fraction, x + (w + t), a + (" e " + f));
  }

  lemma NoIntegerPartIntro(integer: Rel, fraction: Rel, t: string, f: string)
    requires f in fraction(t)
    ensures f in WithIntegerPart(integer, fraction)(t)
  {
    OptThenSkip(Concat(integer, Concat(DeleteSpace(), Conjunction())), fraction, t, f);
  }

  /** Either the whole token is the fraction, or an integer part, white space and the
      fraction, said with " e " between them. */
  lemma IntegerPartSound(integer: Rel, fraction: Rel, s: string, o: string)
      returns (has: bool, x: string, w: string, t: string, a: string, f: string)
    requires o in WithIntegerPart(integer, fraction)(s)
    ensures f in fraction(t)
    ensures has ==> s == x + (w + t) && a in integer(x) && AllWhiteSpace(w) && o == a + (" e " + f)
    ensures !has ==> s == t && o == f
  {
    has, x, w, t, a, f := OptPrefixJoinedElim(integer, " e ", fraction, s, o);
  }

  /** The integer field, with the apocope of its cardinal undone. */
  lemma IntegerSound(u: Helpers, x: string, a: string) returns (i: string)
    requires a in Integer(u)(x)
    ensures x == IntegerOpen + (i + "\"") && QuoteFree(i) && a == u.stripCardinalApocope(i)
  {
    i := MappedTextFieldSound(IntegerOpen, u.stripCardinalApocope, "\"", x, a);
  }

  lemma IntegerComplete(u: Helpers, i: string)
    requires QuoteFree(i)
    ensures u.stripCardinalApocope(i) in Integer(u)(IntegerOpen + (i + "\""))
  {
    assert i in NotQuoteStar(0)(i);
    MapIntro(NotQuoteStar(0), u.stripCardinalApocope, i, i);
    FieldComplete(IntegerOpen, Map(NotQuoteStar(0), u.stripCardinalApocope), "\"", i, u.stripCardinalApocope(i));
  }

  /** The feminine integer part: the apocope is undone, then the gender shifted. */
  lemma IntegerFemSound(u: Helpers, x: string, a: string) returns (i: string)
    requires a in IntegerFem(u)(x)
    ensures x == IntegerOpen + (i + "\"") && QuoteFree(i) && a == u.shiftCardinalGender(u.stripCardinalApocope(i))
  {
    var b := MapElim(Integer(u), u.shiftCardinalGender, x, a);
    i := IntegerSound(u, x, b);
  }

  lemma IntegerFemComplete(u: Helpers, i: string)
    requires QuoteFree(i)
    ensures u.shiftCardinalGender(u.stripCardinalApocope(i)) in IntegerFem(u)(IntegerOpen + (i + "\""))
  {
    IntegerComplete(u, i);
    MapIntro(Integer(u), u.shiftCardinalGender, IntegerOpen + (i + "\""), u.stripCardinalApocope(i));
  }

  lemma IntegerThenSound(u: Helpers, fraction: Rel, s: string, o: string) returns (has: bool, i: string, w: string, t: string, f: string)
    requires o in WithIntegerPart(Integer(u), fraction)(s)
    ensures f in fraction(t)
    ensures has ==> QuoteFree(i) && AllWhiteSpace(w) && s == (IntegerOpen + (i + "\"")) + (w + t)
                    && o == u.stripCardinalApocope(i) + (" e " + f)
    ensures !has ==> s == t && o == f
  {
    var x, a;
    has, x, w, t, a, f := IntegerPartSound(Integer(u), fraction, s, o);
    i := "";
    if has {
      i := IntegerSound(u, x, a);
    }
  }

  lemma IntegerFemThenSound(u: Helpers, fraction: Rel, s: string, o: string) returns (has: bool, i: string, w: string, t: string, f: string)
    requires o in WithIntegerPart(IntegerFem(u), fraction)(s)
    ensures f in fraction(t)
    ensures has ==> QuoteFree(i) && AllWhiteSpace(w) && s == (IntegerOpen + (i + "\"")) + (w + t)
                    && o == u.shiftCardinalGender(u.stripCardinalApocope(i)) + (" e " + f)
    ensures !has ==> s == t && o == f
  {
    var x, a;
    has, x, w, t, a, f := IntegerPartSound(IntegerFem(u), fraction, s, o);
    i := "";
    if has {
      i := IntegerFemSound(u, x, a);
    }
  }

  lemma IntegerThenComplete(u: Helpers, fraction: Rel, i: string, w: string, t: string, f: string)
    requires QuoteFree(i) && AllWhiteSpace(w) && f in fraction(t)
    ensures f in WithIntegerPart(Integer(u), fraction)(t)
    ensures u.stripCardinalApocope(i) + (" e " + f) in WithIntegerPart(Integer(u), fraction)((IntegerOpen + (i + "\"")) + (w + t))
  {
    NoIntegerPartIntro(Integer(u), fraction, t, f);
    IntegerComplete(u, i);
    IntegerPartIntro(Integer(u), fraction, IntegerOpen + (i + "\""), w, t, u.stripCardinalApocope(i), f);
  }

  lemma IntegerFemThenComplete(u: Helpers, fraction: Rel, i: string, w: string, t: string, f: string)
    requires QuoteFree(i) && AllWhiteSpace(w) && f in fraction(t)
    ensures f in WithIntegerPart(IntegerFem(u), fraction)(t)
    ensures u.shiftCardinalGender(u.stripCardinalApocope(i)) + (" e " + f)
         in WithIntegerPart(IntegerFem(u), fraction)((IntegerOpen + (i + "\"")) + (w + t))
  {
    NoIntegerPartIntro(IntegerFem(u), fraction, t, f);
    IntegerFemComplete(u, i);
    IntegerPartIntro(IntegerFem(u), fraction, IntegerOpen + (i + "\""), w, t, u.shiftCardinalGender(u.stripCardinalApocope(i)), f);
  }

  // ---------------------------------------------------------------------------
  // Properties: the feminine branches

  lemma MezzoNotPlural()
    ensures !EndsWith("mezzo", "i")
  {
    assert "mezzo"[4..] != "i";
  }

  /** The feminine plural branch adds nothing: its extra alternative, a gender-shifted
      numerator before a plural denominator written "mezza", is empty. */
  lemma FemPluralMezzaEmpty(u: Helpers, s: string)
    ensures SpaceSeparated(Map(Numerator(), u.shiftCardinalGender), Mezza(DenominatorPlural()))(s) == {}
  {
    MezzoNotPlural();
    SpaceSeparatedReplaceCrossEmpty(Map(Numerator(), u.shiftCardinalGender), DenominatorSingular(), "o", "i", "mezzo", "mezza", s);
  }

  /** Every masculine fraction (without the integer part) is also a feminine one: the
      feminine graph only adds alternatives to the "un" and the default branches. */
  lemma FractionMascInFem(u: Helpers)
    ensures Sub(FractionMasc(u), FractionFem(u))
  {
    UnionWidenFirstTwo(FractionWithOne(u), MezzaWithOne(), FractionDefault(u),
      SpaceSeparated(Map(Numerator(), u.shiftCardinalGender), Mezza(DenominatorPlural())),
      FractionWithCardinal(u));
  }

  /** The feminine "un" alternative reads the numerator "un", white space and a marked
      denominator "mezzo", and says only "mezza". */
  lemma MezzaWithOneSound(s: string, o: string) returns (x: string, w: string, y: string)
    requires o in MezzaWithOne()(s)
    ensures s == x + (w + y) && x == NumeratorUn && AllWhiteSpace(w) && "mezzo" in DenominatorSingular()(y)
    ensures o == "mezza"
  {
    var n;
    x, w, y, n := DeleteInputJoinedCrossElim(NumeratorOne(), DenominatorSingular(), "mezzo", "mezza", s, o);
    NumeratorOneShape(x, n);
  }

  lemma MezzaWithOneComplete(w: string, y: string)
    requires AllWhiteSpace(w) && "mezzo" in DenominatorSingular()(y)
    ensures "mezza" in MezzaWithOne()(NumeratorUn + (w + y))
  {
    NumeratorOneComplete();
    DeleteInputJoinedCrossIntro(NumeratorOne(), DenominatorSingular(), "mezzo", "mezza", NumeratorUn, w, y, "un");
  }

  lemma NumeratorOneComplete()
    ensures "un" in NumeratorOne()(NumeratorUn)
  {
    FieldComplete(NumeratorOpen, Accep("un"), NumeratorClose, "un", "un");
  }
}
