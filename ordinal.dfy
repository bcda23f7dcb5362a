/** The Italian ordinal tagger: a digit string followed by an abbreviation mark
    ("21.º") is read through the cardinal grammar, the cardinal text is turned into
    its ordinal spelling, and the mark becomes a gender or apocope feature. */
module Ordinal {
  import opened Strings
  import opened Fst
  import opened Rewrite
  import opened GraphUtils

  type Lexicon = set<(string, string)>

  /** The ordinal lexical tables after their inversion: pairs of a cardinal word and
      the ordinal word written for it. */
  datatype Tables = Tables(digit: Lexicon, teens: Lexicon, twenties: Lexicon, ties: Lexicon, hundreds: Lexicon)

  /** A teen, a tie followed directly (no space) by an optional digit, or a twenties word. */
  function TensComponent(t: Tables): Rel {
    Union(Union(Table(t.teens), Concat(Table(t.ties), Opt(Table(t.digit)))), Table(t.twenties))
  }

  /** The words that may follow a hundreds word after its space. */
  function TensOrDigit(t: Tables): Rel {
    Union(TensComponent(t), Table(t.digit))
  }

  /** A hundreds word optionally followed by one space and a tens or digit word,
      or a tens word, or a digit word. */
  function HundredComponent(t: Tables): Rel {
    Union(
      Union(
        ThenSpacedTail(Table(t.hundreds), TensOrDigit(t)),
        TensComponent(t)),
      Table(t.digit))
  }

  // ---------------------------------------------------------------------------
  // The numbers 1 to 999 written out

  predicate IsDigit(c: char) {
    '0' <= c <= '9'
  }

  predicate AllDigits(d: string) {
    forall i | 0 <= i < |d| :: IsDigit(d[i])
  }

  /** The decimal numeral of `n` as a string, without leading zeros. */
  function DecimalString(n: nat): string
    decreases n
  {
    if n < 10 then [(48 + n) as char] else DecimalString(n / 10) + [(48 + n % 10) as char]
  }

  /** The value of a string of decimal digits. */
  function DigitsValue(d: string): nat
    requires AllDigits(d)
    decreases |d|
  {
    if d == [] then 0 else DigitsValue(d[..|d| - 1]) * 10 + (d[|d| - 1] as int - 48)
  }

  /** A numeral of one to three digits without a leading zero: the strings 1, 2, ..., 999. */
  predicate IsNumeralBelowThousand(d: string) {
    1 <= |d| <= 3 && AllDigits(d) && d[0] != '0'
  }

  lemma {:induction false} DecimalStringDigits(n: nat)
    requires n >= 1
    ensures AllDigits(DecimalString(n)) && DecimalString(n)[0] != '0'
    ensures DigitsValue(DecimalString(n)) == n
    ensures n < 10 ==> |DecimalString(n)| == 1
    ensures n < 100 ==> |DecimalString(n)| <= 2
    ensures n < 1000 ==> |DecimalString(n)| <= 3
    decreases n
  {
    if n >= 10 {
      var p := DecimalString(n / 10);
      DecimalStringDigits(n / 10);
      var d := DecimalString(n);
      assert d == p + [(48 + n % 10) as char];
      assert d[..|d| - 1] == p;
    }
  }

  lemma DivModTen(p: nat, c: nat)
    requires c < 10
    ensures (p * 10 + c) / 10 == p && (p * 10 + c) % 10 == c
  {
  }

  lemma {:induction false} DigitsValueDecimal(d: string)
    requires |d| >= 1 && AllDigits(d) && d[0] != '0'
    ensures DigitsValue(d) >= 1
    ensures DecimalString(DigitsValue(d)) == d
    ensures |d| <= 1 ==> DigitsValue(d) < 10
    ensures |d| <= 2 ==> DigitsValue(d) < 100
    ensures |d| <= 3 ==> DigitsValue(d) < 1000
    decreases |d|
  {
    if |d| > 1 {
      var p := d[..|d| - 1];
      DigitsValueDecimal(p);
      var v := DigitsValue(d);
      var c := d[|d| - 1] as int - 48;
      assert IsDigit(d[|d| - 1]);
      assert 0 <= c < 10;
      assert v == DigitsValue(p) * 10 + c;
      DivModTen(DigitsValue(p), c);
      assert DecimalString(v) == DecimalString(DigitsValue(p)) + [(48 + c) as char];
      assert d == p + [d[|d| - 1]];
    }
  }

  /** The cardinal texts of 1 to 999: the outputs of the cardinal grammar on the
      numerals of `range(1, 1000)`. */
  function OneToOneThousandTexts(cardinal: Rel): set<string> {
    set n: nat, x | 1 <= n < 1000 && x in cardinal(DecimalString(n)) :: x
  }

  function OneToOneThousand(cardinal: Rel): Rel {
    AcceptSet(OneToOneThousandTexts(cardinal))
  }

  /** The texts are exactly what the cardinal grammar writes for a numeral of one to
      three digits without a leading zero; "1000" is not such a numeral. */
  lemma OneToOneThousandExact(cardinal: Rel, x: string)
    ensures x in OneToOneThousandTexts(cardinal)
        <==> exists d :: IsNumeralBelowThousand(d) && x in cardinal(d)
    ensures !IsNumeralBelowThousand("1000")
  {
    if x in OneToOneThousandTexts(cardinal) {
      var n: nat :| 1 <= n < 1000 && x in cardinal(DecimalString(n));
      DecimalStringDigits(n);
      assert IsNumeralBelowThousand(DecimalString(n));
    }
    if exists d :: IsNumeralBelowThousand(d) && x in cardinal(d) {
      var d :| IsNumeralBelowThousand(d) && x in cardinal(d);
      DigitsValueDecimal(d);
      var n := DigitsValue(d);
      assert 1 <= n < 1000 && x in cardinal(DecimalString(n));
    }
  }

  // ---------------------------------------------------------------------------
  // Thousands

  function Thousands(): Rel {
    Cross("mille", "millesimo")
  }

  /** Deletes the white space in front of "millesimo", gluing the prefix to the suffix. */
  function MergeThousandPrefix(s: string): string {
    DeleteSpaceBefore(s, Before("millesimo"))
  }

  /** An accent-stripped cardinal of 1 to 999 glued to "millesimo", or "mille" alone. */
  function GraphThousandsMerged(cardinal: Rel, u: Helpers): Rel {
    Union(Map(PrefixedThousands(cardinal, u), MergeThousandPrefix), Thousands())
  }

  /** The helper exported for other grammars: multiples of a thousand from digit strings. */
  function MultiplesOfThousand(cardinal: Rel, u: Helpers): Rel {
    Compose(cardinal, GraphThousandsMerged(cardinal, u))
  }

  /** The hundred component of the text of a number from 1 to 999, then a space and
      "millesimo": the word boundary before the thousand is kept. */
  function SpacedPrefixThousands(t: Tables, cardinal: Rel): Rel {
    Concat(Compose(OneToOneThousand(cardinal), HundredComponent(t)), Concat(Accep(" "), Thousands()))
  }

  /** The thousands word itself; the spaced prefix is added in non-deterministic mode. */
  function ThousandsAlternatives(t: Tables, cardinal: Rel, u: Helpers, deterministic: bool): Rel {
    var merged := GraphThousandsMerged(cardinal, u);
    if deterministic then merged else Union(merged, SpacedPrefixThousands(t, cardinal))
  }

  /** The thousands word, then optionally one space and a hundred component. */
  function GraphThousands(t: Tables, cardinal: Rel, u: Helpers, deterministic: bool): Rel {
    ThenSpacedTail(ThousandsAlternatives(t, cardinal, u, deterministic), HundredComponent(t))
  }

  // ---------------------------------------------------------------------------
  // The ordinal graph

  /** The thousands graph or the hundred component. */
  function Components(t: Tables, cardinal: Rel, u: Helpers, deterministic: bool): Rel {
    Union(GraphThousands(t, cardinal, u, deterministic), HundredComponent(t))
  }

  /** The thousands or hundred component, read through the cardinal grammar. */
  function OrdinalCore(t: Tables, cardinal: Rel, u: Helpers, deterministic: bool): Rel {
    Compose(cardinal, Components(t, cardinal, u, deterministic))
  }

  /** A space after every "decimo" and "ventesimo" that some character follows. */
  function SplitTens(s: string): string
    decreases |s|
  {
    if StartsWith(s, "decimo") && |s| > 6 then "decimo " + SplitTens(s[6..])
    else if StartsWith(s, "ventesimo") && |s| > 9 then "ventesimo " + SplitTens(s[9..])
    else if s == [] then []
    else [s[0]] + SplitTens(s[1..])
  }

  /** Deletes every "o" immediately followed by "ottavo". */
  function ElideBeforeOttavo(s: string): string {
    DeleteBefore(s, 'o', "ottavo")
  }

  /** The ordinal text of a digit string. */
  function Graph(t: Tables, cardinal: Rel, u: Helpers, deterministic: bool): Rel {
    var core := OrdinalCore(t, cardinal, u, deterministic);
    var split := if deterministic then core else Union(core, Map(core, SplitTens));
    Map(split, ElideBeforeOttavo)
  }

  const MascMark := "\U{00BA}"
  const FemMark := "\U{00AA}"
  const ApocopeMark := "\U{1D49}\U{02B3}"

  /** An optional period, then `mark`, written as `feature`. */
  function Abbreviation(mark: string, feature: string): Rel {
    Concat(Opt(Delete(".")), Cross(mark, feature))
  }

  function ConvertAbbreviation(): Rel {
    Union(Union(Abbreviation(MascMark, "gender_masc"), Abbreviation(FemMark, "gender_fem")),
          Abbreviation(ApocopeMark, "apocope"))
  }

  /** The closing quote of the integer field, then the feature field that `abbreviation`
      fills. */
  function Features(abbreviation: Rel): Rel {
    Concat(Insert("\""),
      Concat(Insert(" morphosyntactic_features: \""),
        Concat(abbreviation, Insert("\""))))
  }

  /** The ordinal text `g` writes, wrapped in the integer field, then the feature field:
      `integer: "<ordinal>" morphosyntactic_features: "<feature>"`. The tagger's grammar is
      `Tagged(Graph(...), ConvertAbbreviation())`. */
  function Tagged(g: Rel, abbreviation: Rel): Rel {
    Concat(Insert("integer: \""), Concat(g, Features(abbreviation)))
  }

  // ---------------------------------------------------------------------------
  // Properties

  /** A tie followed directly by an optional digit word. */
  function TieThenDigit(t: Tables): Rel {
    Concat(Table(t.ties), Opt(Table(t.digit)))
  }

  ghost predicate TieGluedToDigit(t: Tables, x: string, o: string) {
    exists k: nat, a, b :: k <= |x| && (x[..k], a) in t.ties && (x[k..], b) in t.digit && o == a + b
  }

  lemma TieThenDigitSound(t: Tables, x: string, o: string)
    requires o in TieThenDigit(t)(x)
    ensures (x, o) in t.ties || TieGluedToDigit(t, x, o)
  {
    var k, a, y := ConcatElim(Table(t.ties), Opt(Table(t.digit)), x, o);
    TableMember(t.ties, x[..k], a);
    TableMember(t.digit, x[k..], y);
    if y == "" && x[k..] == "" {
      assert x[..k] == x && o == a;
    }
  }

  lemma TieThenDigitComplete(t: Tables, x: string, o: string)
    requires (x, o) in t.ties || TieGluedToDigit(t, x, o)
    ensures o in TieThenDigit(t)(x)
  {
    if (x, o) in t.ties {
      TableMember(t.ties, x, o);
      assert "" in Opt(Table(t.digit))("");
      ConcatIntro(Table(t.ties), Opt(Table(t.digit)), x, "", o, "");
      assert x + "" == x && o + "" == o;
    } else {
      var k: nat, a, b :| k <= |x| && (x[..k], a) in t.ties && (x[k..], b) in t.digit && o == a + b;
      TableMember(t.ties, x[..k], a);
      TableMember(t.digit, x[k..], b);
      ConcatIntro(Table(t.ties), Opt(Table(t.digit)), x[..k], x[k..], a, b);
      assert x[..k] + x[k..] == x;
    }
  }

  /** A tens word is a teen, a twenties word, a tie alone, or a tie glued to a digit word. */
  lemma TensComponentExact(t: Tables, x: string, o: string)
    ensures o in TensComponent(t)(x) <==>
      (x, o) in t.teens || (x, o) in t.twenties || (x, o) in t.ties || TieGluedToDigit(t, x, o)
  {
    TableMember(t.teens, x, o);
    TableMember(t.twenties, x, o);
    assert TensComponent(t)(x) == Table(t.teens)(x) + TieThenDigit(t)(x) + Table(t.twenties)(x);
    if o in TieThenDigit(t)(x) {
      TieThenDigitSound(t, x, o);
    }
    if (x, o) in t.ties || TieGluedToDigit(t, x, o) {
      TieThenDigitComplete(t, x, o);
    }
  }

  /** A hundred component is a hundreds word alone, a hundreds word, one space and a tens or
      digit word, a tens word, or a digit word. */
  lemma HundredComponentExact(t: Tables, x: string, o: string)
    ensures o in HundredComponent(t)(x) <==>
      || o in TensComponent(t)(x)
      || (x, o) in t.digit
      || (x, o) in t.hundreds
      || SpacedTail(Table(t.hundreds), TensOrDigit(t), x, o)
  {
    TableMember(t.digit, x, o);
    TableMember(t.hundreds, x, o);
    var head := ThenSpacedTail(Table(t.hundreds), TensOrDigit(t));
    assert HundredComponent(t)(x) == head(x) + TensComponent(t)(x) + Table(t.digit)(x);
    if o in head(x) {
      SpacedTailSound(Table(t.hundreds), TensOrDigit(t), x, o);
    }
    if (x, o) in t.hundreds || SpacedTail(Table(t.hundreds), TensOrDigit(t), x, o) {
      SpacedTailComplete(Table(t.hundreds), TensOrDigit(t), x, o);
    }
  }

  // ---------------------------------------------------------------------------
  // Thousands

  /** One space and "mille" is read as one space and "millesimo". */
  lemma SpacedThousand(z: string)
    ensures Concat(Accep(" "), Thousands())(z) == Cross(" mille", " millesimo")(z)
  {
    ConcatFixedLeft(" ", " ", Accep(" "), Thousands(), z);
    if z == " mille" {
      assert StartsWith(z, " ") && z[1..] == "mille";
      assert Thousands()(z[1..]) == {"millesimo"};
      assert " " + "millesimo" == " millesimo";
    } else if StartsWith(z, " ") {
      assert z == " " + z[1..];
      assert z[1..] != "mille";
    }
  }

  /** The merged thousands graph reads "mille" alone as "millesimo", or reads the text `c`
      of a number from 1 to 999, one space and "mille", and writes the accent-stripped `c`
      and "millesimo" with the white space before "millesimo" deleted. Nothing else. */
  lemma ThousandsMergedExact(cardinal: Rel, u: Helpers, x: string, o: string)
    ensures o in GraphThousandsMerged(cardinal, u)(x) <==>
      || (x == "mille" && o == "millesimo")
      || PrefixedThousand(cardinal, u, x, o)
  {
    if PrefixedThousand(cardinal, u, x, o) {
      PrefixedThousandComplete(cardinal, u, x, o);
    }
    if o in GraphThousandsMerged(cardinal, u)(x) && !(x == "mille" && o == "millesimo") {
      PrefixedThousandSound(cardinal, u, x, o);
    }
  }

  /** `x` is the text `c` of a number from 1 to 999, one space and "mille", and `o` is the
      accent-stripped `c` and "millesimo", with the white space before "millesimo" deleted. */
  ghost predicate PrefixedThousand(cardinal: Rel, u: Helpers, x: string, o: string) {
    exists c :: c in OneToOneThousandTexts(cardinal) && x == c + " mille"
             && o == MergeThousandPrefix(u.stripAccent(c) + " millesimo")
  }

  /** The unmerged prefixed thousands graph. */
  function PrefixedThousands(cardinal: Rel, u: Helpers): Rel {
    Concat(Map(OneToOneThousand(cardinal), u.stripAccent), Concat(Accep(" "), Thousands()))
  }

  lemma PrefixedThousandsExact(cardinal: Rel, u: Helpers, x: string)
    ensures PrefixedThousands(cardinal, u)(x) ==
      if EndsWith(x, " mille")
      then (set v | v in Map(OneToOneThousand(cardinal), u.stripAccent)(x[..|x| - 6]) :: v + " millesimo")
      else {}
  {
    var left := Map(OneToOneThousand(cardinal), u.stripAccent);
    var right := Concat(Accep(" "), Thousands());
    forall z ensures right(z) == Cross(" mille", " millesimo")(z) {
      SpacedThousand(z);
    }
    ConcatFixedRight(left, " mille", " millesimo", right, x);
  }

  lemma PrefixedThousandComplete(cardinal: Rel, u: Helpers, x: string, o: string)
    requires PrefixedThousand(cardinal, u, x, o)
    ensures o in GraphThousandsMerged(cardinal, u)(x)
  {
    var c :| c in OneToOneThousandTexts(cardinal) && x == c + " mille"
           && o == MergeThousandPrefix(u.stripAccent(c) + " millesimo");
    PrefixedThousandsExact(cardinal, u, x);
    assert EndsWith(x, " mille") && x[..|x| - 6] == c;
    assert u.stripAccent(c) in Map(OneToOneThousand(cardinal), u.stripAccent)(c);
    assert u.stripAccent(c) + " millesimo" in PrefixedThousands(cardinal, u)(x);
  }

  lemma PrefixedThousandSound(cardinal: Rel, u: Helpers, x: string, o: string)
    requires o in GraphThousandsMerged(cardinal, u)(x) && !(x == "mille" && o == "millesimo")
    ensures PrefixedThousand(cardinal, u, x, o)
  {
    assert o in Map(PrefixedThousands(cardinal, u), MergeThousandPrefix)(x);
    var w :| w in PrefixedThousands(cardinal, u)(x) && o == MergeThousandPrefix(w);
    var c := PrefixedThousandsElim(cardinal, u, x, w);
  }

  lemma PrefixedThousandsElim(cardinal: Rel, u: Helpers, x: string, w: string) returns (c: string)
    requires w in PrefixedThousands(cardinal, u)(x)
    ensures c in OneToOneThousandTexts(cardinal) && x == c + " mille" && w == u.stripAccent(c) + " millesimo"
  {
    var left := Map(OneToOneThousand(cardinal), u.stripAccent);
    PrefixedThousandsExact(cardinal, u, x);
    assert EndsWith(x, " mille");
    c := x[..|x| - 6];
    assert x == c + " mille" by {
      assert x[|x| - 6..] == " mille";
    }
    var v :| v in left(c) && w == v + " millesimo";
  }

  /** The exported multiples of a thousand: the cardinal text of the digits, read by the
      merged thousands graph. */
  lemma MultiplesOfThousandExact(cardinal: Rel, u: Helpers, x: string, o: string)
    ensures o in MultiplesOfThousand(cardinal, u)(x) <==>
      exists y :: y in cardinal(x) && ((y == "mille" && o == "millesimo") || PrefixedThousand(cardinal, u, y, o))
  {
    forall y ensures o in GraphThousandsMerged(cardinal, u)(y) <==>
                     ((y == "mille" && o == "millesimo") || PrefixedThousand(cardinal, u, y, o)) {
      ThousandsMergedExact(cardinal, u, y, o);
    }
  }

  /** A blank-free prefix is glued to "millesimo": "tre" and " millesimo" give "tremillesimo". */
  lemma ThousandPrefixGlued(w: string)
    requires NoWhiteSpace(w)
    ensures MergeThousandPrefix(w + " millesimo") == w + "millesimo"
  {
    DeleteSpaceBeforeNoSpacePrefix(w, " millesimo", Before("millesimo"));
    SpaceBeforeMillesimoDeleted();
  }

  lemma SpaceBeforeMillesimoDeleted()
    ensures DeleteSpaceBefore(" millesimo", Before("millesimo")) == "millesimo"
  {
    var ctx := Before("millesimo");
    assert " millesimo"[1..] == "millesimo";
    assert SpaceRunThen("millesimo", ctx) by {
      assert ctx("millesimo");
    }
    DeleteSpaceBeforeNoSpace("millesimo", ctx);
  }

  /** The non-deterministic thousands graph also keeps the word boundary: a hundred component
      read from the text of a number from 1 to 999, a space and "millesimo". */
  lemma NondeterministicSpacedThousands(t: Tables, cardinal: Rel, u: Helpers, c: string, h: string)
    requires c in OneToOneThousandTexts(cardinal) && h in HundredComponent(t)(c)
    ensures h + " millesimo" in GraphThousands(t, cardinal, u, false)(c + " mille")
  {
    var alternatives := ThousandsAlternatives(t, cardinal, u, false);
    assert c in OneToOneThousand(cardinal)(c);
    SpacedThousand(" mille");
    ConcatIntro(Compose(OneToOneThousand(cardinal), HundredComponent(t)), Concat(Accep(" "), Thousands()),
                c, " mille", h, " millesimo");
    assert h + " millesimo" in alternatives(c + " mille");
    SpacedTailComplete(alternatives, HundredComponent(t), c + " mille", h + " millesimo");
  }

  /** `x` is the text `c` of a number from 1 to 999, a space and "mille", and `o` is a
      hundred component reading of `c`, a space and "millesimo". */
  ghost predicate SpacedHundredThousand(t: Tables, cardinal: Rel, x: string, o: string) {
    exists c, h :: c in OneToOneThousandTexts(cardinal) && h in HundredComponent(t)(c)
                && x == c + " mille" && o == h + " millesimo"
  }

  lemma SpacedPrefixThousandsExact(t: Tables, cardinal: Rel, x: string, o: string)
    ensures o in SpacedPrefixThousands(t, cardinal)(x) <==> SpacedHundredThousand(t, cardinal, x, o)
  {
    SpacedThousandCross();
    AcceptSetThenFixed(OneToOneThousandTexts(cardinal), HundredComponent(t), Concat(Accep(" "), Thousands()),
                       " mille", " millesimo", x, o);
  }

  lemma SpacedThousandCross()
    ensures forall z :: Concat(Accep(" "), Thousands())(z) == Cross(" mille", " millesimo")(z)
  {
    forall z ensures Concat(Accep(" "), Thousands())(z) == Cross(" mille", " millesimo")(z) {
      SpacedThousand(z);
    }
  }

  /** What the thousands word reads and writes: "mille" alone as "millesimo", a merged
      prefix, and in non-deterministic mode a spaced hundred component before "millesimo". */
  ghost predicate ThousandsReading(t: Tables, cardinal: Rel, u: Helpers, deterministic: bool, x: string, o: string) {
    || (x == "mille" && o == "millesimo")
    || PrefixedThousand(cardinal, u, x, o)
    || (!deterministic && SpacedHundredThousand(t, cardinal, x, o))
  }

  lemma ThousandsAlternativesExact(t: Tables, cardinal: Rel, u: Helpers, deterministic: bool, x: string, o: string)
    ensures o in ThousandsAlternatives(t, cardinal, u, deterministic)(x)
        <==> ThousandsReading(t, cardinal, u, deterministic, x, o)
  {
    ThousandsMergedExact(cardinal, u, x, o);
    SpacedPrefixThousandsExact(t, cardinal, x, o);
  }

  /** A thousands reading of `p`, then one space, then a hundred component reading of `q`. */
  ghost predicate ThousandsThenRemainder(t: Tables, cardinal: Rel, u: Helpers, deterministic: bool, x: string, o: string) {
    exists p, a, q, r :: x == p + (" " + q) && ThousandsReading(t, cardinal, u, deterministic, p, a)
                      && r in HundredComponent(t)(q) && o == a + (" " + r)
  }

  /** The thousands graph writes a thousands reading alone, or followed by one space and
      a hundred component reading of the rest. */
  lemma GraphThousandsSound(t: Tables, cardinal: Rel, u: Helpers, deterministic: bool, x: string, o: string)
    requires o in GraphThousands(t, cardinal, u, deterministic)(x)
    ensures ThousandsReading(t, cardinal, u, deterministic, x, o)
         || ThousandsThenRemainder(t, cardinal, u, deterministic, x, o)
  {
    var alternatives := ThousandsAlternatives(t, cardinal, u, deterministic);
    SpacedTailSound(alternatives, HundredComponent(t), x, o);
    if o in alternatives(x) {
      ThousandsAlternativesExact(t, cardinal, u, deterministic, x, o);
    } else {
      var p, a, q, r := SpacedTailWitness(alternatives, HundredComponent(t), x, o);
      RemainderIntro(t, cardinal, u, deterministic, x, o, p, a, q, r);
    }
  }

  lemma RemainderIntro(t: Tables, cardinal: Rel, u: Helpers, deterministic: bool, x: string, o: string,
                       p: string, a: string, q: string, r: string)
    requires x == p + (" " + q) && a in ThousandsAlternatives(t, cardinal, u, deterministic)(p)
    requires r in HundredComponent(t)(q) && o == a + (" " + r)
    ensures ThousandsThenRemainder(t, cardinal, u, deterministic, x, o)
  {
    ThousandsAlternativesExact(t, cardinal, u, deterministic, p, a);
  }

  lemma GraphThousandsComplete(t: Tables, cardinal: Rel, u: Helpers, deterministic: bool, x: string, o: string)
    requires ThousandsReading(t, cardinal, u, deterministic, x, o)
          || ThousandsThenRemainder(t, cardinal, u, deterministic, x, o)
    ensures o in GraphThousands(t, cardinal, u, deterministic)(x)
  {
    var alternatives := ThousandsAlternatives(t, cardinal, u, deterministic);
    if ThousandsReading(t, cardinal, u, deterministic, x, o) {
      ThousandsAlternativesExact(t, cardinal, u, deterministic, x, o);
    } else {
      var p, a, q, r := RemainderWitness(t, cardinal, u, deterministic, x, o);
      RemainderElim(t, cardinal, u, deterministic, x, o, p, a, q, r);
    }
    SpacedTailComplete(alternatives, HundredComponent(t), x, o);
  }

  lemma RemainderWitness(t: Tables, cardinal: Rel, u: Helpers, deterministic: bool, x: string, o: string)
      returns (p: string, a: string, q: string, r: string)
    requires ThousandsThenRemainder(t, cardinal, u, deterministic, x, o)
    ensures x == p + (" " + q) && ThousandsReading(t, cardinal, u, deterministic, p, a)
    ensures r in HundredComponent(t)(q) && o == a + (" " + r)
  {
    p, a, q, r :| x == p + (" " + q) && ThousandsReading(t, cardinal, u, deterministic, p, a)
               && r in HundredComponent(t)(q) && o == a + (" " + r);
  }

  lemma RemainderElim(t: Tables, cardinal: Rel, u: Helpers, deterministic: bool, x: string, o: string,
                      p: string, a: string, q: string, r: string)
    requires x == p + (" " + q) && ThousandsReading(t, cardinal, u, deterministic, p, a)
    requires r in HundredComponent(t)(q) && o == a + (" " + r)
    ensures SpacedTail(ThousandsAlternatives(t, cardinal, u, deterministic), HundredComponent(t), x, o)
  {
    ThousandsAlternativesExact(t, cardinal, u, deterministic, p, a);
  }

  /** The ordinal graph: a cardinal reading of the digits, read by the thousands graph or the
      hundred component, with the "o" before "ottavo" elided; in non-deterministic mode also
      with "decimo" and "ventesimo" split from what follows them before the elision. */
  lemma GraphExact(t: Tables, cardinal: Rel, u: Helpers, deterministic: bool, x: string, o: string)
    ensures o in Graph(t, cardinal, u, deterministic)(x) <==>
      exists y, w :: y in cardinal(x) && w in Components(t, cardinal, u, deterministic)(y)
        && (o == ElideBeforeOttavo(w) || (!deterministic && o == ElideBeforeOttavo(SplitTens(w))))
  {
    GraphUnfold(t, cardinal, u, deterministic);
    ReadThenRewrite(Graph(t, cardinal, u, deterministic), cardinal, Components(t, cardinal, u, deterministic),
                    SplitTens, ElideBeforeOttavo, deterministic, x, o);
  }

  lemma GraphUnfold(t: Tables, cardinal: Rel, u: Helpers, deterministic: bool)
    ensures Graph(t, cardinal, u, deterministic)
         == Map(if deterministic then Compose(cardinal, Components(t, cardinal, u, deterministic))
                else Union(Compose(cardinal, Components(t, cardinal, u, deterministic)),
                           Map(Compose(cardinal, Components(t, cardinal, u, deterministic)), SplitTens)),
                ElideBeforeOttavo)
  {
  }

  // ---------------------------------------------------------------------------
  // Deterministic and non-deterministic graphs

  lemma GraphThousandsMono(t: Tables, cardinal: Rel, u: Helpers)
    ensures Sub(GraphThousands(t, cardinal, u, true), GraphThousands(t, cardinal, u, false))
  {
    var merged := GraphThousandsMerged(cardinal, u);
    var spacedPrefix := SpacedPrefixThousands(t, cardinal);
    var tail := Opt(Concat(Accep(" "), HundredComponent(t)));
    UnionLeft(merged, spacedPrefix);
    SubRefl(tail);
    ConcatMono(merged, Union(merged, spacedPrefix), tail, tail);
  }

  /** Every reading of the deterministic ordinal graph is one of the non-deterministic graph. */
  lemma DeterministicIsSubset(t: Tables, cardinal: Rel, u: Helpers, abbreviation: Rel)
    ensures Sub(Graph(t, cardinal, u, true), Graph(t, cardinal, u, false))
    ensures Sub(Tagged(Graph(t, cardinal, u, true), abbreviation),
                Tagged(Graph(t, cardinal, u, false), abbreviation))
  {
    OrdinalCoreMono(t, cardinal, u);
    var coreT := OrdinalCore(t, cardinal, u, true);
    var coreF := OrdinalCore(t, cardinal, u, false);
    UnionLeft(coreF, Map(coreF, SplitTens));
    MapMono(coreT, Union(coreF, Map(coreF, SplitTens)), ElideBeforeOttavo);
    TaggedMono(Graph(t, cardinal, u, true), Graph(t, cardinal, u, false), abbreviation);
  }

  lemma OrdinalCoreMono(t: Tables, cardinal: Rel, u: Helpers)
    ensures Sub(OrdinalCore(t, cardinal, u, true), OrdinalCore(t, cardinal, u, false))
  {
    GraphThousandsMono(t, cardinal, u);
    SubRefl(HundredComponent(t));
    SubRefl(cardinal);
    UnionMono(GraphThousands(t, cardinal, u, true), GraphThousands(t, cardinal, u, false),
              HundredComponent(t), HundredComponent(t));
    ComposeMono(cardinal, cardinal,
                Union(GraphThousands(t, cardinal, u, true), HundredComponent(t)),
                Union(GraphThousands(t, cardinal, u, false), HundredComponent(t)));
  }

  lemma TaggedMono(g: Rel, g': Rel, abbreviation: Rel)
    requires Sub(g, g')
    ensures Sub(Tagged(g, abbreviation), Tagged(g', abbreviation))
  {
    var features := Features(abbreviation);
    SubRefl(features);
    SubRefl(Insert("integer: \""));
    ConcatMono(g, g', features, features);
    ConcatMono(Insert("integer: \""), Insert("integer: \""), Concat(g, features), Concat(g', features));
  }

  /** The non-deterministic graph also gives each reading with "decimo" and "ventesimo" split
      from the word that follows them, besides the reading itself. */
  lemma NondeterministicSplitTens(t: Tables, cardinal: Rel, u: Helpers, x: string, o: string)
    requires o in OrdinalCore(t, cardinal, u, false)(x)
    ensures ElideBeforeOttavo(o) in Graph(t, cardinal, u, false)(x)
    ensures ElideBeforeOttavo(SplitTens(o)) in Graph(t, cardinal, u, false)(x)
  {
    var core := OrdinalCore(t, cardinal, u, false);
    assert SplitTens(o) in Map(core, SplitTens)(x);
  }

  /** When the cardinal text of the input fits neither the thousands nor the hundred
      component, the graph has no output: it fails rather than guessing. */
  lemma NoComponentNoOutput(t: Tables, cardinal: Rel, u: Helpers, deterministic: bool, x: string)
    requires forall y | y in cardinal(x) ::
      GraphThousands(t, cardinal, u, deterministic)(y) == {} && HundredComponent(t)(y) == {}
    ensures Graph(t, cardinal, u, deterministic)(x) == {}
  {
    var core := OrdinalCore(t, cardinal, u, deterministic);
    assert core(x) == {};
    assert Map(core, SplitTens)(x) == {};
  }

  // ---------------------------------------------------------------------------
  // Rewrites of the ordinal text

  /** The split only ever adds spaces: the non-blank characters stay, in order. */
  lemma {:induction false} SplitTensOnlyInsertsSpaces(s: string)
    ensures NonSpace(SplitTens(s)) == NonSpace(s)
    ensures |SplitTens(s)| >= |s|
    decreases |s|
  {
    if StartsWith(s, "decimo") && |s| > 6 {
      SplitTensOnlyInsertsSpaces(s[6..]);
      SplitDecimoKeepsLetters(s, SplitTens(s[6..]));
    } else if StartsWith(s, "ventesimo") && |s| > 9 {
      SplitTensOnlyInsertsSpaces(s[9..]);
      SplitVentesimoKeepsLetters(s, SplitTens(s[9..]));
    } else if s != [] {
      SplitTensOnlyInsertsSpaces(s[1..]);
      CopiedLetterKeepsLetters(s, SplitTens(s[1..]));
    }
  }

  lemma CopiedLetterKeepsLetters(s: string, r: string)
    requires |s| > 0 && NonSpace(r) == NonSpace(s[1..]) && |r| >= |s| - 1
    ensures NonSpace([s[0]] + r) == NonSpace(s) && |[s[0]] + r| >= |s|
  {
    NonSpaceConcat([s[0]], r);
    NonSpaceConcat([s[0]], s[1..]);
    assert [s[0]] + s[1..] == s;
  }

  lemma SplitDecimoKeepsLetters(s: string, r: string)
    requires StartsWith(s, "decimo") && |s| > 6
    requires NonSpace(r) == NonSpace(s[6..]) && |r| >= |s| - 6
    ensures NonSpace("decimo " + r) == NonSpace(s) && |"decimo " + r| >= |s|
  {
    SplitWordKeepsLetters("decimo", "decimo ", s, r);
  }

  lemma SplitVentesimoKeepsLetters(s: string, r: string)
    requires StartsWith(s, "ventesimo") && |s| > 9
    requires NonSpace(r) == NonSpace(s[9..]) && |r| >= |s| - 9
    ensures NonSpace("ventesimo " + r) == NonSpace(s) && |"ventesimo " + r| >= |s|
  {
    SplitWordKeepsLetters("ventesimo", "ventesimo ", s, r);
  }

  /** `w` followed by a space and then `r`, the split of the rest of `s`. */
  lemma SplitWordKeepsLetters(w: string, ws: string, s: string, r: string)
    requires NoWhiteSpace(w) && ws == w + " " && StartsWith(s, w) && |s| > |w|
    requires NonSpace(r) == NonSpace(s[|w|..]) && |r| >= |s| - |w|
    ensures NonSpace(ws + r) == NonSpace(s) && |ws + r| >= |s|
  {
    assert s == w + s[|w|..];
    NonSpaceConcat(w, s[|w|..]);
    NonSpaceOfNoWhiteSpace(w);
    NonSpaceBlankSuffix(w);
    NonSpaceConcat(ws, r);
  }

  lemma NonSpaceBlankSuffix(w: string)
    requires NoWhiteSpace(w)
    ensures NonSpace(w + " ") == w
  {
    NonSpaceConcat(w, " ");
    NonSpaceOfNoWhiteSpace(w);
    assert NonSpace(" ") == [];
    assert w + [] == w;
  }

  /** Text without "decimo" or "ventesimo" is not split. */
  lemma {:induction false} SplitTensIdentity(s: string)
    requires !Contains(s, "decimo") && !Contains(s, "ventesimo")
    ensures SplitTens(s) == s
    decreases |s|
  {
    if s != [] {
      SplitTensIdentity(s[1..]);
    }
  }

  /** "decimo" followed by something is split from it. */
  lemma SplitTensSplitsDecimo(b: string)
    requires |b| > 0
    ensures SplitTens("decimo" + b) == "decimo " + SplitTens(b)
  {
    var d := "decimo" + b;
    assert d[6..] == b;
    assert StartsWith(d, "decimo") && |d| > 6 by {
      StartsWithConcat("decimo", b);
    }
    assert SplitTens(d) == "decimo " + SplitTens(d[6..]);
  }

  /** "ventesimo" followed by something is split from it. */
  lemma SplitTensSplitsVentesimo(b: string)
    requires |b| > 0
    ensures SplitTens("ventesimo" + b) == "ventesimo " + SplitTens(b)
  {
    var v := "ventesimo" + b;
    assert v[9..] == b;
    assert !StartsWith(v, "decimo") by {
      assert v[0] == 'v';
    }
    assert StartsWith(v, "ventesimo") && |v| > 9 by {
      StartsWithConcat("ventesimo", b);
    }
    assert SplitTens(v) == "ventesimo " + SplitTens(v[9..]);
  }

  /** The "o" elision changes the text exactly when an "o" stands before "ottavo"; it only
      removes letters "o", and every other letter keeps its count. */
  lemma ElideBeforeOttavoSpec(s: string)
    ensures ElideBeforeOttavo(s) == s <==> !Contains(s, "oottavo")
    ensures |ElideBeforeOttavo(s)| <= |s|
    ensures forall c | c != 'o' :: multiset(ElideBeforeOttavo(s))[c] == multiset(s)[c]
  {
    DeleteBeforeIdentity(s, 'o', "ottavo");
    DeleteBeforeOnlyDeletes(s, 'o', "ottavo");
    assert ['o'] + "ottavo" == "oottavo";
  }

  /** An "o" right before "ottavo" is dropped: "ventoottavo" becomes "ventottavo". */
  lemma ElideBeforeOttavoSite(a: string, b: string)
    requires forall i | 0 <= i < |a| :: a[i] != 'o'
    ensures ElideBeforeOttavo(a + "oottavo" + b) == a + ElideBeforeOttavo("ottavo" + b)
  {
    ElideSitePrefix(a, "oottavo" + b);
    assert a + "oottavo" + b == a + ("oottavo" + b);
    var s := "oottavo" + b;
    assert s[1..] == "ottavo" + b;
    StartsWithConcat("ottavo", b);
    assert ElideBeforeOttavo(s) == [] + ElideBeforeOttavo(s[1..]);
  }

  /** A prefix without any "o" is copied. */
  lemma {:induction false} ElideSitePrefix(a: string, b: string)
    requires forall i | 0 <= i < |a| :: a[i] != 'o'
    ensures ElideBeforeOttavo(a + b) == a + ElideBeforeOttavo(b)
    decreases |a|
  {
    if a != [] {
      assert (a + b)[0] == a[0];
      assert (a + b)[1..] == a[1..] + b;
      ElideSitePrefix(a[1..], b);
    } else {
      assert a + b == b;
    }
  }

  // ---------------------------------------------------------------------------
  // Abbreviations and the tagged output

  /** An abbreviation reads the mark, with or without a period in front, and writes the
      feature; it reads nothing else. */
  lemma AbbreviationExact(mark: string, feature: string, m: string, f: string)
    ensures f in Abbreviation(mark, feature)(m) <==> (m == mark || m == "." + mark) && f == feature
  {
    var period := Opt(Delete("."));
    ConcatFixedRight(period, mark, feature, Cross(mark, feature), m);
    if m == mark {
      assert EndsWith(m, mark) && m[..|m| - |mark|] == "";
      assert "" in period("");
      assert "" + feature == feature;
    } else if m == "." + mark {
      assert EndsWith(m, mark) && m[..|m| - |mark|] == ".";
      assert "" in period(".");
      assert "" + feature == feature;
    } else if EndsWith(m, mark) {
      var y := m[..|m| - |mark|];
      assert m == y + mark;
      assert period(y) == {};
    }
  }

  /** The abbreviation marks: "º" gives gender_masc, "ª" gives gender_fem and "ᵉʳ" gives
      apocope, each with an optional period in front. Any other text has no reading. */
  lemma ConvertAbbreviationExact(m: string, f: string)
    ensures f in ConvertAbbreviation()(m) <==>
      || ((m == MascMark || m == "." + MascMark) && f == "gender_masc")
      || ((m == FemMark || m == "." + FemMark) && f == "gender_fem")
      || ((m == ApocopeMark || m == "." + ApocopeMark) && f == "apocope")
  {
    AbbreviationExact(MascMark, "gender_masc", m, f);
    AbbreviationExact(FemMark, "gender_fem", m, f);
    AbbreviationExact(ApocopeMark, "apocope", m, f);
  }

  /** `o` is one tagged ordinal for `s`: `integer: "<x>" morphosyntactic_features: "<f>"`,
      where `g` reads a prefix of `s` and writes `x`, and `abbreviation` (for the tagger,
      the six abbreviations of `ConvertAbbreviationExact`) reads the rest and writes `f`. */
  ghost predicate TaggedReading(g: Rel, abbreviation: Rel, s: string, o: string) {
    PrefixedFramedReading("integer: \"", g, "\"", " morphosyntactic_features: \"", abbreviation, "\"", s, o)
  }

  /** The output of the tagger is exactly `integer: "<ordinal>" morphosyntactic_features:
      "<feature>"`, where the ordinal graph reads a prefix of the input and an abbreviation
      reads the rest; an input without such a split has no output. */
  lemma TaggedExact(g: Rel, abbreviation: Rel, s: string, o: string)
    ensures o in Tagged(g, abbreviation)(s) <==> TaggedReading(g, abbreviation, s, o)
  {
    PrefixedFramedExact("integer: \"", g, "\"", " morphosyntactic_features: \"", abbreviation, "\"", s, o);
  }

}
