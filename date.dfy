/** The Italian date verbalizer: the fields of a date token become the date as it is
    read. It has two orderings. Day-month-year writes the day, then the optional month,
    then the optional year, each after one space. Month-day-year writes the month, the
    day and the optional year. In deterministic mode the second ordering needs an
    explicit order marker, which it deletes. A day that reads "uno" as a whole is said
    "primo". No connector word is written between the parts. */
module Date {
  import opened Strings
  import opened Fst
  import opened Rewrite
  import opened GraphUtils

  const DayOpen := "day: \""
  const MonthKey := "month:"
  const YearKey := "year:"
  const Quote := "\""

  /** The day field, holding a non-empty quote-free cardinal text. */
  function DayCardinal(): Rel {
    Field(DayOpen, NotQuoteStar(1), Quote)
  }

  /** The day text with the cardinal apocope undone. */
  function DayStripped(u: Helpers): Rel {
    Map(DayCardinal(), u.stripCardinalApocope)
  }

  /** "uno" becomes "primo" when it is the whole day text. */
  function Primo(t: string): string {
    RewriteWhole(t, "uno", "primo", true)
  }

  /** Deterministic mode says the first day "primo" only; the other mode also keeps the
      cardinal reading. */
  function WithPrimo(day: Rel, det: bool): Rel {
    if det then Map(day, Primo) else Union(day, Map(day, Primo))
  }

  function Day(u: Helpers, det: bool): Rel {
    WithPrimo(DayStripped(u), det)
  }

  /** The month field: its key, optional white space, and a non-empty quoted text. */
  function Month(): Rel {
    KeyedField(MonthKey, Concat(NotQuoteStar(1), Delete(Quote)))
  }

  /** The year field: like the month, but white space is also allowed before the
      closing quote, and is dropped. */
  function Year(): Rel {
    KeyedField(YearKey, Concat(NotQuoteStar(1), Concat(DeleteSpace(), Delete(Quote))))
  }

  /** The day, then at most one month and at most one year, each reached over a
      non-empty run of white space that is written as one space. */
  function DayMonthYear(day: Rel, month: Rel, year: Rel): Rel {
    Concat(day, Concat(Opt(Concat(DeleteExtraSpace(), month)), Opt(Concat(DeleteExtraSpace(), year))))
  }

  /** The month, one space, the day, and optionally one space and the year; the spaces
      are read and written as they are. */
  function MonthDayYear(month: Rel, day: Rel, year: Rel): Rel {
    Concat(month, Concat(Accep(" "), Concat(day, Opt(Concat(Accep(" "), year)))))
  }

  /** In deterministic mode the ordering is only taken when the order marker follows,
      and the marker is dropped. */
  function Gated(g: Rel, det: bool): Rel {
    if det then Concat(g, Delete(PreserveOrderMarker)) else g
  }

  function Graph(u: Helpers, det: bool): Rel {
    Union(
      DayMonthYear(Day(u, det), Month(), Year()),
      Gated(MonthDayYear(Month(), Day(u, det), Year()), det))
  }

  /** The date, then whatever trailing order markers the order-marker deletion reads. */
  function Final(u: Helpers, det: bool): Rel {
    Concat(Graph(u, det), DeletePreserveOrder(u))
  }

  // ---------------------------------------------------------------------------
  // The day

  /** "primo" replaces a day text that is exactly "uno", and nothing else. */
  lemma PrimoExact(t: string)
    ensures t == "uno" ==> Primo(t) == "primo"
    ensures t != "uno" ==> Primo(t) == t
  {
    RewriteWholeExact(t, "uno", "primo");
  }

  lemma WithPrimoSound(day: Rel, det: bool, s: string, o: string) returns (x: string)
    requires o in WithPrimo(day, det)(s)
    ensures x in day(s)
    ensures det ==> o == Primo(x)
    ensures !det ==> o == x || o == Primo(x)
  {
    if o in Map(day, Primo)(s) {
      x := MapElim(day, Primo, s, o);
    } else {
      x := o;
    }
  }

  lemma DaySound(u: Helpers, det: bool, s: string, o: string) returns (v: string)
    requires o in Day(u, det)(s)
    ensures s == DayOpen + (v + Quote) && QuoteFree(v) && |v| >= 1
    ensures det ==> o == Primo(u.stripCardinalApocope(v))
    ensures !det ==> o == u.stripCardinalApocope(v) || o == Primo(u.stripCardinalApocope(v))
  {
    var x := WithPrimoSound(DayStripped(u), det, s, o);
    v := MapElim(DayCardinal(), u.stripCardinalApocope, s, x);
    TextFieldSound(DayOpen, 1, Quote, s, v);
  }

  lemma DayComplete(u: Helpers, det: bool, v: string)
    requires QuoteFree(v) && |v| >= 1
    ensures Primo(u.stripCardinalApocope(v)) in Day(u, det)(DayOpen + (v + Quote))
    ensures !det ==> u.stripCardinalApocope(v) in Day(u, det)(DayOpen + (v + Quote))
  {
    var s := DayOpen + (v + Quote);
    TextFieldComplete(DayOpen, 1, Quote, v);
    MapIntro(DayCardinal(), u.stripCardinalApocope, s, v);
    MapIntro(DayStripped(u), Primo, s, u.stripCardinalApocope(v));
  }

  /** The day of deterministic mode is one of the days of the other mode. */
  lemma DayDetInNondet(u: Helpers)
    ensures Sub(Day(u, true), Day(u, false))
  {
    forall s ensures Day(u, true)(s) <= Day(u, false)(s) {
      assert Day(u, false)(s) == DayStripped(u)(s) + Map(DayStripped(u), Primo)(s);
    }
  }

  // ---------------------------------------------------------------------------
  // The month and the year

  lemma MonthSound(s: string, o: string) returns (w: string)
    requires o in Month()(s)
    ensures s == MonthKey + (w + (Quote + (o + Quote))) && AllWhiteSpace(w)
    ensures QuoteFree(o) && |o| >= 1
  {
    var t;
    w, t := KeyedFieldElim(MonthKey, Concat(NotQuoteStar(1), Delete(Quote)), s, o);
    TextThenCloseExact(1, Quote, t, o);
  }

  lemma MonthComplete(w: string, o: string)
    requires AllWhiteSpace(w) && QuoteFree(o) && |o| >= 1
    ensures o in Month()(MonthKey + (w + (Quote + (o + Quote))))
  {
    TextThenCloseExact(1, Quote, o + Quote, o);
    KeyedFieldIntro(MonthKey, Concat(NotQuoteStar(1), Delete(Quote)), w, o + Quote, o);
  }

  /** White space before the year's closing quote is not written. */
  lemma YearSound(s: string, o: string) returns (w: string, w': string)
    requires o in Year()(s)
    ensures s == YearKey + (w + (Quote + (o + (w' + Quote)))) && AllWhiteSpace(w) && AllWhiteSpace(w')
    ensures QuoteFree(o) && |o| >= 1
  {
    var t;
    w, t := KeyedFieldElim(YearKey, Concat(NotQuoteStar(1), Concat(DeleteSpace(), Delete(Quote))), s, o);
    w' := TextSpaceCloseElim(1, t, o);
  }

  lemma YearComplete(w: string, o: string, w': string)
    requires AllWhiteSpace(w) && AllWhiteSpace(w') && QuoteFree(o) && |o| >= 1
    ensures o in Year()(YearKey + (w + (Quote + (o + (w' + Quote)))))
  {
    TextSpaceCloseIntro(1, o, w');
    KeyedFieldIntro(YearKey, Concat(NotQuoteStar(1), Concat(DeleteSpace(), Delete(Quote))), w, o + (w' + Quote), o);
  }

  // ---------------------------------------------------------------------------
  // The two orderings

  /** Day-month-year reads a day, then the month part `m` and the year part `y`; each
      part is either absent, or a run of white space and the field, written as one space
      and the field's text. */
  lemma DayMonthYearSound(day: Rel, month: Rel, year: Rel, s: string, o: string)
      returns (x: string, m: string, y: string, d: string, b: string, c: string)
    requires o in DayMonthYear(day, month, year)(s)
    ensures s == x + (m + y) && d in day(x) && o == d + (b + c)
    ensures SpacedOrAbsent(month, m, b) && SpacedOrAbsent(year, y, c)
  {
    var mo := Opt(Concat(DeleteExtraSpace(), month));
    var yo := Opt(Concat(DeleteExtraSpace(), year));
    x, m, y, d, b, c := Concat3Elim(day, mo, yo, s, o);
    SpacedOrAbsentSound(month, m, b);
    SpacedOrAbsentSound(year, y, c);
  }

  lemma DayMonthYearComplete(day: Rel, month: Rel, year: Rel, x: string, m: string, y: string, d: string, b: string, c: string)
    requires d in day(x) && SpacedOrAbsent(month, m, b) && SpacedOrAbsent(year, y, c)
    ensures d + (b + c) in DayMonthYear(day, month, year)(x + (m + y))
  {
    SpacedOrAbsentComplete(month, m, b);
    SpacedOrAbsentComplete(year, y, c);
    Concat3Intro(day, Opt(Concat(DeleteExtraSpace(), month)), Opt(Concat(DeleteExtraSpace(), year)), x, m, y, d, b, c);
  }

  /** A full day-month-year date: the three texts, each after one space, with no
      connector word; the year loses its trailing white space. */
  lemma DayMonthYearFull(u: Helpers, det: bool, v: string, w1: string, wm: string, m: string,
                         w2: string, wy: string, y: string, wy': string)
    requires QuoteFree(v) && |v| >= 1 && QuoteFree(m) && |m| >= 1 && QuoteFree(y) && |y| >= 1
    requires |w1| > 0 && AllWhiteSpace(w1) && AllWhiteSpace(wm)
    requires |w2| > 0 && AllWhiteSpace(w2) && AllWhiteSpace(wy) && AllWhiteSpace(wy')
    ensures Primo(u.stripCardinalApocope(v)) + (" " + m + (" " + y))
         in DayMonthYear(Day(u, det), Month(), Year())(
              DayOpen + (v + Quote) + (w1 + (MonthKey + (wm + (Quote + (m + Quote)))) + (w2 + (YearKey + (wy + (Quote + (y + (wy' + Quote))))))))
  {
    var mt := MonthKey + (wm + (Quote + (m + Quote)));
    var yt := YearKey + (wy + (Quote + (y + (wy' + Quote))));
    DayComplete(u, det, v);
    MonthComplete(wm, m);
    YearComplete(wy, y, wy');
    SpacedIntro(Month(), w1, mt, m);
    SpacedIntro(Year(), w2, yt, y);
    DayMonthYearComplete(Day(u, det), Month(), Year(), DayOpen + (v + Quote), w1 + mt, w2 + yt,
      Primo(u.stripCardinalApocope(v)), " " + m, " " + y);
  }

  /** Month-day-year reads a month, one space, a day, and a year part that is absent or
      one space and the year; what it writes has the same shape. */
  lemma MonthDayYearSound(month: Rel, day: Rel, year: Rel, s: string, o: string)
      returns (m: string, x: string, y: string, a: string, d: string, c: string)
    requires o in MonthDayYear(month, day, year)(s)
    ensures s == m + (" " + (x + y)) && a in month(m) && d in day(x) && o == a + (" " + (d + c))
    ensures KeptSpaceOrAbsent(year, y, c)
  {
    var rest := Concat(Accep(" "), Concat(day, Opt(Concat(Accep(" "), year))));
    var k, a', r := ConcatElim(month, rest, s, o);
    var t := s[k..];
    m, a := s[..k], a';
    var t', r' := KeptThenElim(" ", Concat(day, Opt(Concat(Accep(" "), year))), t, r);
    var k', d', c' := ConcatElim(day, Opt(Concat(Accep(" "), year)), t', r');
    x, y, d, c := t'[..k'], t'[k'..], d', c';
    assert t' == x + y by {
      SplitAt(t', k');
    }
    assert s == m + t by {
      SplitAt(s, k);
    }
    KeptSpaceOrAbsentExact(year, y, c);
  }

  lemma MonthDayYearComplete(month: Rel, day: Rel, year: Rel, m: string, x: string, y: string, a: string, d: string, c: string)
    requires a in month(m) && d in day(x) && KeptSpaceOrAbsent(year, y, c)
    ensures a + (" " + (d + c)) in MonthDayYear(month, day, year)(m + (" " + (x + y)))
  {
    var tail := Opt(Concat(Accep(" "), year));
    KeptSpaceOrAbsentExact(year, y, c);
    ConcatIntro(day, tail, x, y, d, c);
    KeptThenIntro(" ", Concat(day, tail), x + y, d + c);
    ConcatIntro(month, Concat(Accep(" "), Concat(day, tail)), m, " " + (x + y), a, " " + (d + c));
  }

  /** A full month-day-year date in deterministic mode: it is read only with the order
      marker after it, and then written in the order it came in. */
  lemma MonthDayYearFull(u: Helpers, wm: string, m: string, v: string, wy: string, y: string, wy': string)
    requires QuoteFree(v) && |v| >= 1 && QuoteFree(m) && |m| >= 1 && QuoteFree(y) && |y| >= 1
    requires AllWhiteSpace(wm) && AllWhiteSpace(wy) && AllWhiteSpace(wy')
    ensures m + (" " + (Primo(u.stripCardinalApocope(v)) + (" " + y)))
         in Gated(MonthDayYear(Month(), Day(u, true), Year()), true)(
              MonthKey + (wm + (Quote + (m + Quote))) + (" " + (DayOpen + (v + Quote) + (" " + (YearKey + (wy + (Quote + (y + (wy' + Quote))))))))
              + PreserveOrderMarker)
  {
    var yt := YearKey + (wy + (Quote + (y + (wy' + Quote))));
    DayComplete(u, true, v);
    MonthComplete(wm, m);
    YearComplete(wy, y, wy');
    KeptSpaceIntro(Year(), yt, y);
    MonthDayYearComplete(Month(), Day(u, true), Year(), MonthKey + (wm + (Quote + (m + Quote))),
      DayOpen + (v + Quote), " " + yt, m, Primo(u.stripCardinalApocope(v)), " " + y);
    GatedComplete(MonthDayYear(Month(), Day(u, true), Year()), true,
      MonthKey + (wm + (Quote + (m + Quote))) + (" " + (DayOpen + (v + Quote) + (" " + yt))),
      m + (" " + (Primo(u.stripCardinalApocope(v)) + (" " + y))));
  }

  /** The gate: in deterministic mode the input must end with the order marker, which is
      read and dropped; otherwise the input is read unchanged. */
  lemma GatedSound(g: Rel, det: bool, s: string, o: string) returns (t: string)
    requires o in Gated(g, det)(s)
    ensures o in g(t)
    ensures det ==> s == t + PreserveOrderMarker
    ensures !det ==> s == t
  {
    if det {
      ConcatFixedRight(g, PreserveOrderMarker, "", Delete(PreserveOrderMarker), s);
      t := s[..|s| - |PreserveOrderMarker|];
      var x :| x in g(t) && o == x + "";
      assert x == o;
      assert s == t + PreserveOrderMarker;
    } else {
      t := s;
    }
  }

  lemma GatedComplete(g: Rel, det: bool, t: string, o: string)
    requires o in g(t)
    ensures det ==> o in Gated(g, det)(t + PreserveOrderMarker)
    ensures !det ==> o in Gated(g, det)(t)
  {
    assert "" in Delete(PreserveOrderMarker)(PreserveOrderMarker);
    ConcatIntro(g, Delete(PreserveOrderMarker), t, PreserveOrderMarker, o, "");
    assert o + "" == o;
  }

  // ---------------------------------------------------------------------------
  // The whole verbalizer

  lemma FinalSound(u: Helpers, det: bool, s: string, o: string) returns (g: string, t: string)
    requires o in Final(u, det)(s)
    ensures s == g + t && o in Graph(u, det)(g) && u.preserveOrderTail(t)
  {
    g, t := ThenPreserveOrderElim(Graph(u, det), u, s, o);
  }

  lemma FinalComplete(u: Helpers, det: bool, g: string, t: string, o: string)
    requires o in Graph(u, det)(g) && u.preserveOrderTail(t)
    ensures o in Final(u, det)(g + t)
  {
    ThenPreserveOrderIntro(Graph(u, det), u, g, t, o);
  }

  /** Dropping the gate: when each deterministic ordering is part of the other mode's,
      whatever the gated union writes before the order-marker deletion, the ungated one
      writes too, because a well-shaped deletion also reads the marker. */
  lemma GateAbsorbed(u: Helpers, dmy: Rel, dmy': Rel, mdy: Rel, mdy': Rel)
    requires WellShaped(u) && Sub(dmy, dmy') && Sub(mdy, mdy')
    ensures Sub(Concat(Union(dmy, Gated(mdy, true)), DeletePreserveOrder(u)),
                Concat(Union(dmy', Gated(mdy', false)), DeletePreserveOrder(u)))
  {
    forall s ensures Concat(Union(dmy, Gated(mdy, true)), DeletePreserveOrder(u))(s)
                  <= Concat(Union(dmy', Gated(mdy', false)), DeletePreserveOrder(u))(s) {
      forall o | o in Concat(Union(dmy, Gated(mdy, true)), DeletePreserveOrder(u))(s)
        ensures o in Concat(Union(dmy', Gated(mdy', false)), DeletePreserveOrder(u))(s)
      {
        GateAbsorbedAt(u, dmy, dmy', mdy, mdy', s, o);
      }
    }
  }

  lemma GateAbsorbedAt(u: Helpers, dmy: Rel, dmy': Rel, mdy: Rel, mdy': Rel, s: string, o: string)
    requires WellShaped(u) && Sub(dmy, dmy') && Sub(mdy, mdy')
    requires o in Concat(Union(dmy, Gated(mdy, true)), DeletePreserveOrder(u))(s)
    ensures o in Concat(Union(dmy', Gated(mdy', false)), DeletePreserveOrder(u))(s)
  {
    var g, t := ThenPreserveOrderElim(Union(dmy, Gated(mdy, true)), u, s, o);
    if o in dmy(g) {
      assert o in dmy'(g);
      UngatedIntro(u, dmy', mdy', g, t, o);
    } else {
      var g' := GatedSound(mdy, true, g, o);
      assert o in mdy'(g');
      assert s == g' + (PreserveOrderMarker + t);
      UngatedIntro(u, dmy', mdy', g', PreserveOrderMarker + t, o);
    }
  }

  lemma UngatedIntro(u: Helpers, dmy: Rel, mdy: Rel, x: string, t: string, o: string)
    requires (o in dmy(x) || o in mdy(x)) && u.preserveOrderTail(t)
    ensures o in Concat(Union(dmy, Gated(mdy, false)), DeletePreserveOrder(u))(x + t)
  {
    assert o in Union(dmy, Gated(mdy, false))(x);
    ThenPreserveOrderIntro(Union(dmy, Gated(mdy, false)), u, x, t, o);
  }

  /** Whatever the deterministic verbalizer writes, the other mode writes too: the
      deterministic day is one of the non-deterministic days, and a deleted order marker
      is read instead by the order-marker deletion that follows. */
  lemma FinalDetInNondet(u: Helpers)
    requires WellShaped(u)
    ensures Sub(Final(u, true), Final(u, false))
  {
    DayDetInNondet(u);
    OrderingsMono(u, Day(u, true), Day(u, false), Month(), Year());
  }

  /** Both orderings, the gated one followed by the marker deletion, keep containment
      between days; the ungated ordering also takes in the gated one. */
  lemma OrderingsMono(u: Helpers, day: Rel, day': Rel, month: Rel, year: Rel)
    requires WellShaped(u) && Sub(day, day')
    ensures Sub(Concat(Union(DayMonthYear(day, month, year), Gated(MonthDayYear(month, day, year), true)), DeletePreserveOrder(u)),
                Concat(Union(DayMonthYear(day', month, year), Gated(MonthDayYear(month, day', year), false)), DeletePreserveOrder(u)))
  {
    DayMonthYearMono(day, day', month, year);
    MonthDayYearMono(day, day', month, year);
    GateAbsorbed(u, DayMonthYear(day, month, year), DayMonthYear(day', month, year),
      MonthDayYear(month, day, year), MonthDayYear(month, day', year));
  }

  /** Each ordering over a day grammar is part of the same ordering over a larger one. */
  lemma DayMonthYearMono(day: Rel, day': Rel, month: Rel, year: Rel)
    requires Sub(day, day')
    ensures Sub(DayMonthYear(day, month, year), DayMonthYear(day', month, year))
  {
    var rest := Concat(Opt(Concat(DeleteExtraSpace(), month)), Opt(Concat(DeleteExtraSpace(), year)));
    SubRefl(rest);
    ConcatMono(day, day', rest, rest);
  }

  lemma MonthDayYearMono(day: Rel, day': Rel, month: Rel, year: Rel)
    requires Sub(day, day')
    ensures Sub(MonthDayYear(month, day, year), MonthDayYear(month, day', year))
  {
    var tail := Opt(Concat(Accep(" "), year));
    SubRefl(tail);
    ConcatMono(day, day', tail, tail);
    SubRefl(Accep(" "));
    ConcatMono(Accep(" "), Accep(" "), Concat(day, tail), Concat(day', tail));
    SubRefl(month);
    ConcatMono(month, month, Concat(Accep(" "), Concat(day, tail)), Concat(Accep(" "), Concat(day', tail)));
  }
}
