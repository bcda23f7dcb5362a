/** The pieces the three grammars take from the Italian and English graph utilities.
    The Italian rewrites (accent stripping, cardinal apocope, cardinal gender shift,
    the accent table) and the English order-marker deletion are defined outside this
    model; they come in as parameters, and `WellShaped` lists the only facts about
    them that the lemmas rely on. The white-space and quote classes are given here. */
module GraphUtils {
  import opened Strings
  import opened Fst

  /** The foreign helpers, each the function its rewrite computes on the text it is
      composed with. `preserveOrderTail` holds of the strings the order-marker deletion
      reads (it writes nothing for them). */
  datatype Helpers = Helpers(
    stripAccent: string -> string,
    stripCardinalApocope: string -> string,
    shiftCardinalGender: string -> string,
    accents: map<char, char>,
    preserveOrderTail: string -> bool)

  /** The shape the grammars assume of the helpers: the accent table maps accented
      (non-ASCII, non-blank) letters to non-blank letters, and the order-marker
      deletion is a closure containing " preserve_order: true". */
  ghost predicate WellShaped(u: Helpers) {
    && (forall c | c in u.accents :: c as int >= 128 && !IsWhiteSpace(c) && !IsWhiteSpace(u.accents[c]))
    && u.preserveOrderTail("")
    && (forall t | u.preserveOrderTail(t) :: u.preserveOrderTail(PreserveOrderMarker + t))
  }

  const PreserveOrderMarker := " preserve_order: true"

  predicate NotQuote(c: char) {
    c != '"'
  }

  /** Any run of non-quote characters, read and written unchanged. */
  function NotQuoteStar(min: nat): Rel {
    Star(NotQuote, min)
  }

  /** Reads any run of white space (possibly empty), writes nothing. */
  function DeleteSpace(): Rel {
    DeleteStar(IsWhiteSpace, 0)
  }

  /** Reads a non-empty run of white space, writes exactly one space. */
  function DeleteExtraSpace(): Rel {
    Concat(DeleteStar(IsWhiteSpace, 1), Insert(" "))
  }

  function InsertSpace(): Rel {
    Insert(" ")
  }

  /** The deletion of trailing order markers after a verbalized token. */
  function DeletePreserveOrder(u: Helpers): Rel {
    s => if u.preserveOrderTail(s) then {""} else {}
  }

  /** A run of white space read by `DeleteSpace` in front of `h`. */
  lemma DeleteSpaceThen(h: Rel, w: string, s: string, o: string)
    requires AllWhiteSpace(w) && o in h(s)
    ensures o in Concat(DeleteSpace(), h)(w + s)
  {
    assert "" in DeleteSpace()(w);
    ConcatIntro(DeleteSpace(), h, w, s, "", o);
    assert "" + o == o;
  }

  /** A non-empty run of white space read by `DeleteExtraSpace` in front of `h` becomes one space. */
  lemma DeleteExtraSpaceThen(h: Rel, w: string, s: string, o: string)
    requires |w| > 0 && AllWhiteSpace(w) && o in h(s)
    ensures " " + o in Concat(DeleteExtraSpace(), h)(w + s)
  {
    assert "" in DeleteStar(IsWhiteSpace, 1)(w);
    assert " " in Insert(" ")("");
    ConcatIntro(DeleteStar(IsWhiteSpace, 1), Insert(" "), w, "", "", " ");
    assert w + "" == w && "" + " " == " ";
    assert " " in DeleteExtraSpace()(w);
    ConcatIntro(DeleteExtraSpace(), h, w, s, " ", o);
  }

  /** A quoted field of a token: `open` and `close` are read and dropped, `body` reads
      what lies between them. */
  function Field(open: string, body: Rel, close: string): Rel {
    Concat(Delete(open), Concat(body, Delete(close)))
  }

  lemma FieldSound(open: string, body: Rel, close: string, s: string, o: string) returns (v: string)
    requires o in Field(open, body, close)(s)
    ensures s == open + (v + close) && o in body(v)
  {
    var k, d, z := ConcatElim(Delete(open), Concat(body, Delete(close)), s, o);
    var t := s[k..];
    var k', x, e := ConcatElim(body, Delete(close), t, z);
    v := t[..k'];
    assert s[..k] == open && d == "";
    assert t[k'..] == close && e == "";
    assert o == x by {
      assert o == d + z && z == x + e;
    }
    assert t == v + close by {
      SplitAt(t, k');
    }
    assert s == open + t by {
      SplitAt(s, k);
    }
  }

  lemma FieldComplete(open: string, body: Rel, close: string, v: string, o: string)
    requires o in body(v)
    ensures o in Field(open, body, close)(open + (v + close))
  {
    var inner := Concat(body, Delete(close));
    assert "" in Delete(close)(close);
    ConcatIntro(body, Delete(close), v, close, o, "");
    assert o + "" == o;
    assert "" in Delete(open)(open);
    ConcatIntro(Delete(open), inner, open, v + close, "", o);
    assert "" + o == o;
  }

  /** The field reads exactly `open`, a text its body reads, and `close`. */
  lemma FieldExact(open: string, body: Rel, close: string, s: string, o: string)
    ensures o in Field(open, body, close)(s) <==> exists v :: s == open + (v + close) && o in body(v)
  {
    if o in Field(open, body, close)(s) {
      var v := FieldSound(open, body, close, s, o);
    }
    if exists v :: s == open + (v + close) && o in body(v) {
      var v :| s == open + (v + close) && o in body(v);
      FieldComplete(open, body, close, v, o);
    }
  }

  /** The body of a field is determined by the text. */
  lemma FieldBodyUnique(open: string, close: string, v: string, v': string)
    requires open + (v + close) == open + (v' + close)
    ensures v == v'
  {
    var s := open + (v + close);
    assert |v| == |v'|;
    assert v == s[|open|..|open| + |v|];
    assert v' == s[|open|..|open| + |v'|];
  }

  /** Reads exactly the runs of white space, writing nothing. */
  lemma DeleteSpaceExact(w: string, o: string)
    ensures o in DeleteSpace()(w) <==> AllWhiteSpace(w) && o == ""
  {
  }

  /** Any run of white space read and replaced by the text `b`. */
  lemma DeleteSpaceInsertExact(b: string, w: string, e: string)
    ensures e in Concat(DeleteSpace(), Insert(b))(w) <==> AllWhiteSpace(w) && e == b
  {
    ConcatFixedRight(DeleteSpace(), "", b, Insert(b), w);
    assert w[..|w| - |""|] == w;
    assert "" + b == b;
  }

  /** `g`, any white space, one written space, `h`: how two words of a token are joined. */
  function SpaceSeparated(g: Rel, h: Rel): Rel {
    Concat(g, Concat(DeleteSpace(), Concat(InsertSpace(), h)))
  }

  /** White space, then `b` written in front of `h`: introduction. */
  lemma SpaceThenIntro(b: string, h: Rel, w: string, y: string, f: string)
    requires AllWhiteSpace(w) && f in h(y)
    ensures b + f in Concat(DeleteSpace(), Concat(Insert(b), h))(w + y)
  {
    InsertThen(b, h, y);
    DeleteSpaceThen(Concat(Insert(b), h), w, y, b + f);
  }

  /** White space, then `b` written in front of `h`: elimination. */
  lemma SpaceThenElim(b: string, h: Rel, t: string, z: string) returns (w: string, y: string, f: string)
    requires z in Concat(DeleteSpace(), Concat(Insert(b), h))(t)
    ensures t == w + y && AllWhiteSpace(w) && f in h(y) && z == b + f
  {
    var k, e, z' := ConcatElim(DeleteSpace(), Concat(Insert(b), h), t, z);
    w, y := t[..k], t[k..];
    InsertThen(b, h, y);
    assert t == w + y by {
      SplitAt(t, k);
    }
    assert z == z' by {
      assert e == "";
    }
    f :| f in h(y) && z' == b + f;
  }

  lemma SpaceSeparatedIntro(g: Rel, h: Rel, x: string, w: string, y: string, a: string, b: string)
    requires a in g(x) && AllWhiteSpace(w) && b in h(y)
    ensures a + (" " + b) in SpaceSeparated(g, h)(x + (w + y))
  {
    SpaceThenIntro(" ", h, w, y, b);
    ConcatIntro(g, Concat(DeleteSpace(), Concat(InsertSpace(), h)), x, w + y, a, " " + b);
  }

  lemma SpaceSeparatedElim(g: Rel, h: Rel, s: string, o: string) returns (x: string, w: string, y: string, a: string, b: string)
    requires o in SpaceSeparated(g, h)(s)
    ensures s == x + (w + y) && a in g(x) && AllWhiteSpace(w) && b in h(y) && o == a + (" " + b)
  {
    var k, a', z := ConcatElim(g, Concat(DeleteSpace(), Concat(InsertSpace(), h)), s, o);
    x, a := s[..k], a';
    w, y, b := SpaceThenElim(" ", h, s[k..], z);
    assert s == x + s[k..] by {
      SplitAt(s, k);
    }
  }

  /** A field holding any quote-free text, written unchanged. */
  lemma FieldTextExact(open: string, close: string, s: string, o: string)
    ensures o in Field(open, NotQuoteStar(0), close)(s) <==> s == open + (o + close) && QuoteFree(o)
  {
    if o in Field(open, NotQuoteStar(0), close)(s) {
      var v := FieldSound(open, NotQuoteStar(0), close, s, o);
    }
    if s == open + (o + close) && QuoteFree(o) {
      FieldComplete(open, NotQuoteStar(0), close, o, o);
    }
  }

  /** A field holding any quote-free text, written through `m`. */
  lemma MappedTextFieldSound(open: string, m: string -> string, close: string, s: string, o: string)
    returns (v: string)
    requires o in Field(open, Map(NotQuoteStar(0), m), close)(s)
    ensures s == open + (v + close) && QuoteFree(v) && o == m(v)
  {
    v := FieldSound(open, Map(NotQuoteStar(0), m), close, s, o);
    var x := MapElim(NotQuoteStar(0), m, v, o);
    NotQuoteStarElim(0, v, x);
  }

  lemma NotQuoteStarElim(min: nat, v: string, x: string)
    requires x in NotQuoteStar(min)(v)
    ensures x == v && QuoteFree(v) && |v| >= min
  {
  }

  /** After `open`, a text starting with a body and a text that opens with a quote has
      the body's characters and then that quote. */
  lemma QuoteEndsBody(open: string, v: string, c: string, s: string)
    requires |c| > 0 && c[0] == '"' && StartsWith(s, open + (v + c))
    ensures |open| + |v| < |s| && s[|open| + |v|] == '"'
    ensures forall i | 0 <= i < |v| :: s[|open| + i] == v[i]
  {
    var p := open + (v + c);
    assert s[..|p|] == p;
    forall i | 0 <= i < |v| ensures s[|open| + i] == v[i] {
      assert s[..|p|][|open| + i] == v[i];
    }
    assert s[..|p|][|open| + |v|] == '"';
  }

  /** Two quote-free field bodies that both open a text, each followed by a quote, are
      the same: the first quote after `open` ends both. */
  lemma QuotedPrefixUnique(open: string, v: string, c: string, v': string, c': string, s: string)
    requires QuoteFree(v) && QuoteFree(v')
    requires |c| > 0 && c[0] == '"' && |c'| > 0 && c'[0] == '"'
    requires StartsWith(s, open + (v + c))
    ensures StartsWith(s, open + (v' + c')) ==> v == v'
  {
    QuoteEndsBody(open, v, c, s);
    if StartsWith(s, open + (v' + c')) {
      QuoteEndsBody(open, v', c', s);
      assert |v| == |v'|;
    }
  }

  /** Nothing is read when the second word has no reading. */
  lemma SpaceSeparatedEmpty(g: Rel, h: Rel, s: string)
    requires forall y :: h(y) == {}
    ensures SpaceSeparated(g, h)(s) == {}
  {
    forall o | o in SpaceSeparated(g, h)(s) ensures false {
      var x, w, y, a, b := SpaceSeparatedElim(g, h, s, o);
    }
  }

  lemma MappedSpaceSeparatedElim(g: Rel, h: Rel, f: string -> string, s: string, o: string)
    returns (x: string, w: string, y: string, a: string, b: string)
    requires o in Map(SpaceSeparated(g, h), f)(s)
    ensures s == x + (w + y) && a in g(x) && AllWhiteSpace(w) && b in h(y) && o == f(a + (" " + b))
  {
    var z := MapElim(SpaceSeparated(g, h), f, s, o);
    x, w, y, a, b := SpaceSeparatedElim(g, h, s, z);
  }

  // ---------------------------------------------------------------------------
  // A field, white space, then a second word rewritten by `m`

  /** `o` is what a field followed by a spaced word writes: `a` from the field body `v`,
      one space, and `m` of what `den` writes for the rest `y`. */
  ghost predicate FieldThenWord(open: string, body: Rel, close: string, den: Rel, m: string -> string,
                                s: string, v: string, w: string, y: string, a: string, d: string)
  {
    s == (open + (v + close)) + (w + y) && a in body(v) && AllWhiteSpace(w) && d in den(y)
  }

  lemma FieldThenWordSound(open: string, body: Rel, close: string, den: Rel, m: string -> string, s: string, o: string)
    returns (v: string, w: string, y: string, a: string, d: string)
    requires o in SpaceSeparated(Field(open, body, close), Map(den, m))(s)
    ensures FieldThenWord(open, body, close, den, m, s, v, w, y, a, d) && o == a + (" " + m(d))
  {
    var x, b;
    x, w, y, a, b := SpaceSeparatedElim(Field(open, body, close), Map(den, m), s, o);
    v := FieldSound(open, body, close, x, a);
    d := MapElim(den, m, y, b);
  }

  lemma FieldThenWordComplete(open: string, body: Rel, close: string, den: Rel, m: string -> string,
                              s: string, v: string, w: string, y: string, a: string, d: string)
    requires FieldThenWord(open, body, close, den, m, s, v, w, y, a, d)
    ensures a + (" " + m(d)) in SpaceSeparated(Field(open, body, close), Map(den, m))(s)
  {
    FieldComplete(open, body, close, v, a);
    assert m(d) in Map(den, m)(y);
    SpaceSeparatedIntro(Field(open, body, close), Map(den, m), open + (v + close), w, y, a, m(d));
  }

  /** The same, for a field that holds exactly `lit`. */
  lemma LiteralFieldThenWordSound(open: string, lit: string, close: string, den: Rel, m: string -> string,
                                  s: string, o: string)
    returns (w: string, y: string, d: string)
    requires o in SpaceSeparated(Field(open, Accep(lit), close), Map(den, m))(s)
    ensures s == (open + (lit + close)) + (w + y) && AllWhiteSpace(w) && d in den(y)
    ensures o == lit + (" " + m(d))
  {
    var v, a;
    v, w, y, a, d := FieldThenWordSound(open, Accep(lit), close, den, m, s, o);
    LiteralBody(lit, v, a);
  }

  lemma LiteralBody(lit: string, v: string, a: string)
    requires a in Accep(lit)(v)
    ensures v == lit && a == lit
  {
  }

  lemma LiteralFieldThenWordComplete(open: string, lit: string, close: string, den: Rel, m: string -> string,
                                     w: string, y: string, d: string)
    requires AllWhiteSpace(w) && d in den(y)
    ensures lit + (" " + m(d)) in SpaceSeparated(Field(open, Accep(lit), close), Map(den, m))((open + (lit + close)) + (w + y))
  {
    FieldThenWordComplete(open, Accep(lit), close, den, m, (open + (lit + close)) + (w + y), lit, w, y, lit, d);
  }

  /** The same, for a field that holds any quote-free text but `excluded`. */
  lemma TextFieldThenWordSound(open: string, excluded: string, close: string, den: Rel, m: string -> string,
                               s: string, o: string)
    returns (v: string, w: string, y: string, d: string)
    requires o in SpaceSeparated(Field(open, Minus(NotQuoteStar(0), excluded), close), Map(den, m))(s)
    ensures s == (open + (v + close)) + (w + y) && QuoteFree(v) && v != excluded
    ensures AllWhiteSpace(w) && d in den(y) && o == v + (" " + m(d))
  {
    var a;
    v, w, y, a, d := FieldThenWordSound(open, Minus(NotQuoteStar(0), excluded), close, den, m, s, o);
    TextBody(excluded, v, a);
  }

  lemma TextBody(excluded: string, v: string, a: string)
    requires a in Minus(NotQuoteStar(0), excluded)(v)
    ensures a == v && QuoteFree(v) && v != excluded
  {
  }

  /** A text that opens with a field holding `v` does not open with the same field
      holding another quote-free `lit`. */
  lemma FieldTextNotLiteral(open: string, v: string, close: string, lit: string, s: string, rest: string)
    requires QuoteFree(v) && QuoteFree(lit) && v != lit && |close| > 0 && close[0] == '"'
    requires s == (open + (v + close)) + rest
    ensures !StartsWith(s, open + (lit + close))
  {
    StartsWithConcat(open + (v + close), rest);
    QuotedPrefixUnique(open, v, close, lit, close, s);
  }

  lemma TextFieldThenWordComplete(open: string, excluded: string, close: string, den: Rel, m: string -> string,
                                  v: string, w: string, y: string, d: string)
    requires QuoteFree(v) && v != excluded && AllWhiteSpace(w) && d in den(y)
    ensures v + (" " + m(d)) in SpaceSeparated(Field(open, Minus(NotQuoteStar(0), excluded), close), Map(den, m))((open + (v + close)) + (w + y))
  {
    assert v in Minus(NotQuoteStar(0), excluded)(v);
    FieldThenWordComplete(open, Minus(NotQuoteStar(0), excluded), close, den, m, (open + (v + close)) + (w + y), v, w, y, v, d);
  }


  /** `g`, any white space, the written text `b`, then `h`. */
  lemma JoinedIntro(g: Rel, b: string, h: Rel, x: string, w: string, y: string, a: string, c: string)
    requires a in g(x) && AllWhiteSpace(w) && c in h(y)
    ensures a + (b + c) in Concat(g, Concat(DeleteSpace(), Concat(Insert(b), h)))(x + (w + y))
  {
    SpaceThenIntro(b, h, w, y, c);
    ConcatIntro(g, Concat(DeleteSpace(), Concat(Insert(b), h)), x, w + y, a, b + c);
  }

  lemma JoinedElim(g: Rel, b: string, h: Rel, s: string, o: string) returns (x: string, w: string, y: string, a: string, c: string)
    requires o in Concat(g, Concat(DeleteSpace(), Concat(Insert(b), h)))(s)
    ensures s == x + (w + y) && a in g(x) && AllWhiteSpace(w) && c in h(y) && o == a + (b + c)
  {
    var k, a', z := ConcatElim(g, Concat(DeleteSpace(), Concat(Insert(b), h)), s, o);
    x, a := s[..k], a';
    w, y, c := SpaceThenElim(b, h, s[k..], z);
    assert s == x + s[k..] by {
      SplitAt(s, k);
    }
  }

  /** `g`, any white space, then the text `b` written. */
  lemma ThenWriteIntro(g: Rel, b: string, x: string, w: string, c: string)
    requires c in g(x) && AllWhiteSpace(w)
    ensures c + b in Concat(g, Concat(DeleteSpace(), Insert(b)))(x + w)
  {
    DeleteSpaceInsertExact(b, w, b);
    ConcatIntro(g, Concat(DeleteSpace(), Insert(b)), x, w, c, b);
  }

  lemma ThenWriteElim(g: Rel, b: string, s: string, o: string) returns (x: string, w: string, c: string)
    requires o in Concat(g, Concat(DeleteSpace(), Insert(b)))(s)
    ensures s == x + w && c in g(x) && AllWhiteSpace(w) && o == c + b
  {
    var k, c', e := ConcatElim(g, Concat(DeleteSpace(), Insert(b)), s, o);
    x, w, c := s[..k], s[k..], c';
    DeleteSpaceInsertExact(b, w, e);
    SplitAt(s, k);
  }

  /** `g`, any white space, the text `b` written, then `h`, grouped as
      `(g + white space + b) + h`. */
  lemma PrefixJoinedElim(g: Rel, b: string, h: Rel, s: string, o: string) returns (x: string, w: string, y: string, a: string, c: string)
    requires o in Concat(Concat(g, Concat(DeleteSpace(), Insert(b))), h)(s)
    ensures s == x + (w + y) && a in g(x) && AllWhiteSpace(w) && c in h(y) && o == a + (b + c)
  {
    ConcatRegroupRight(g, Concat(DeleteSpace(), Insert(b)), h, s, o);
    var k, a', z := ConcatElim(g, Concat(Concat(DeleteSpace(), Insert(b)), h), s, o);
    x, a := s[..k], a';
    ConcatRegroupRight(DeleteSpace(), Insert(b), h, s[k..], z);
    w, y, c := SpaceThenElim(b, h, s[k..], z);
    assert s == x + s[k..] by {
      SplitAt(s, k);
    }
  }

  lemma PrefixJoinedIntro(g: Rel, b: string, h: Rel, x: string, w: string, y: string, a: string, c: string)
    requires a in g(x) && AllWhiteSpace(w) && c in h(y)
    ensures a + (b + c) in Concat(Concat(g, Concat(DeleteSpace(), Insert(b))), h)(x + (w + y))
  {
    SpaceThenIntro(b, h, w, y, c);
    ConcatRegroupLeft(DeleteSpace(), Insert(b), h, w + y, b + c);
    ConcatIntro(g, Concat(Concat(DeleteSpace(), Insert(b)), h), x, w + y, a, b + c);
    ConcatRegroupLeft(g, Concat(DeleteSpace(), Insert(b)), h, x + (w + y), a + (b + c));
  }

  /** The joint regrouped: `(g + white space + b) + h` is `g + (white space + (b + h))`. */
  lemma PrefixRegroup(g: Rel, b: string, h: Rel, s: string, o: string)
    requires o in Concat(Concat(g, Concat(DeleteSpace(), Insert(b))), h)(s)
    ensures o in Concat(g, Concat(DeleteSpace(), Concat(Insert(b), h)))(s)
  {
    var x, w, y, a, c := PrefixJoinedElim(g, b, h, s, o);
    JoinedIntro(g, b, h, x, w, y, a, c);
  }

  lemma OptPrefixCases(g: Rel, b: string, h: Rel, s: string, o: string)
    requires o in Concat(Opt(Concat(g, Concat(DeleteSpace(), Insert(b)))), h)(s)
    ensures o in h(s) || o in Concat(g, Concat(DeleteSpace(), Concat(Insert(b), h)))(s)
  {
    OptThenCases(Concat(g, Concat(DeleteSpace(), Insert(b))), h, s, o);
    if o !in h(s) {
      PrefixRegroup(g, b, h, s, o);
    }
  }

  /** An optional prefix already split off: either `h` alone or the joined form. */
  lemma SkipOrJoinedElim(g: Rel, b: string, h: Rel, s: string, o: string)
      returns (taken: bool, x: string, w: string, y: string, a: string, c: string)
    requires o in h(s) || o in Concat(g, Concat(DeleteSpace(), Concat(Insert(b), h)))(s)
    ensures c in h(y)
    ensures taken ==> s == x + (w + y) && a in g(x) && AllWhiteSpace(w) && o == a + (b + c)
    ensures !taken ==> s == y && o == c
  {
    if o in h(s) {
      taken, x, w, y, a, c := false, "", "", s, "", o;
    } else {
      taken := true;
      x, w, y, a, c := JoinedElim(g, b, h, s, o);
    }
  }
  /** An optional `g` joined to `h` by white space read and `b` written: either `h` read
      the whole text, or `g`, white space and `h` read it and `b` stands between their
      outputs. */
  lemma OptPrefixJoinedElim(g: Rel, b: string, h: Rel, s: string, o: string)
      returns (taken: bool, x: string, w: string, y: string, a: string, c: string)
    requires o in Concat(Opt(Concat(g, Concat(DeleteSpace(), Insert(b)))), h)(s)
    ensures c in h(y)
    ensures taken ==> s == x + (w + y) && a in g(x) && AllWhiteSpace(w) && o == a + (b + c)
    ensures !taken ==> s == y && o == c
  {
    OptPrefixCases(g, b, h, s, o);
    taken, x, w, y, a, c := SkipOrJoinedElim(g, b, h, s, o);
  }

  /** A text `g` reads, dropped, then white space, then `h`. */
  lemma DeleteInputJoinedElim(g: Rel, h: Rel, s: string, o: string) returns (x: string, w: string, y: string, n: string)
    requires o in Concat(DeleteInput(g), Concat(DeleteSpace(), h))(s)
    ensures s == x + (w + y) && n in g(x) && AllWhiteSpace(w) && o in h(y)
  {
    var k, e, z := ConcatElim(DeleteInput(g), Concat(DeleteSpace(), h), s, o);
    x := s[..k];
    var k', d, c := ConcatElim(DeleteSpace(), h, s[k..], z);
    w, y := s[k..][..k'], s[k..][k'..];
    assert s == x + (w + y) by {
      SplitAt(s[k..], k');
      SplitAt(s, k);
    }
    assert o == c by {
      assert e == "" && d == "";
    }
    n :| n in g(x);
  }

  /** The same with `h` a composition with `Cross(a, b)`: `b` is written, and only when
      `d` writes `a`. */
  lemma DeleteInputJoinedCrossElim(g: Rel, d: Rel, a: string, b: string, s: string, o: string)
      returns (x: string, w: string, y: string, n: string)
    requires o in Concat(DeleteInput(g), Concat(DeleteSpace(), Compose(d, Cross(a, b))))(s)
    ensures s == x + (w + y) && n in g(x) && AllWhiteSpace(w) && a in d(y) && o == b
  {
    x, w, y, n := DeleteInputJoinedElim(g, Compose(d, Cross(a, b)), s, o);
    ComposeCrossElim(d, a, b, y, o);
  }

  lemma DeleteInputJoinedCrossIntro(g: Rel, d: Rel, a: string, b: string, x: string, w: string, y: string, n: string)
    requires n in g(x) && AllWhiteSpace(w) && a in d(y)
    ensures b in Concat(DeleteInput(g), Concat(DeleteSpace(), Compose(d, Cross(a, b))))(x + (w + y))
  {
    assert b in Cross(a, b)(a);
    assert b in Compose(d, Cross(a, b))(y);
    DeleteInputJoinedIntro(g, Compose(d, Cross(a, b)), x, w, y, n, b);
  }

  lemma DeleteInputJoinedIntro(g: Rel, h: Rel, x: string, w: string, y: string, n: string, c: string)
    requires n in g(x) && AllWhiteSpace(w) && c in h(y)
    ensures c in Concat(DeleteInput(g), Concat(DeleteSpace(), h))(x + (w + y))
  {
    DeleteSpaceThen(h, w, y, c);
    assert "" in DeleteInput(g)(x);
    ConcatIntro(DeleteInput(g), Concat(DeleteSpace(), h), x, w + y, "", c);
    assert "" + c == c;
  }

  /** Nothing follows `n` when the second word is a final replacement by `b` crossed
      from `c`, a word that does not end in `b`. */
  lemma SpaceSeparatedReplaceCrossEmpty(n: Rel, g: Rel, a: string, b: string, c: string, d: string, s: string)
    requires !EndsWith(c, b)
    ensures SpaceSeparated(n, Compose(Concat(g, Concat(Delete(a), Insert(b))), Cross(c, d)))(s) == {}
  {
    forall y ensures Compose(Concat(g, Concat(Delete(a), Insert(b))), Cross(c, d))(y) == {} {
      ReplaceThenCrossEmpty(g, a, b, c, d, y);
    }
    SpaceSeparatedEmpty(n, Compose(Concat(g, Concat(Delete(a), Insert(b))), Cross(c, d)), s);
  }

  /** Reads a non-empty run of white space and writes one space. */
  lemma DeleteExtraSpaceExact(w: string, e: string)
    ensures e in DeleteExtraSpace()(w) <==> |w| > 0 && AllWhiteSpace(w) && e == " "
  {
    ConcatFixedRight(DeleteStar(IsWhiteSpace, 1), "", " ", Insert(" "), w);
    assert w[..|w| - |""|] == w;
    assert "" + " " == " ";
  }

  /** White space read and dropped in front of `h`. */
  lemma DeleteSpaceThenElim(h: Rel, s: string, o: string) returns (w: string, t: string)
    requires o in Concat(DeleteSpace(), h)(s)
    ensures s == w + t && AllWhiteSpace(w) && o in h(t)
  {
    var k, e, c := ConcatElim(DeleteSpace(), h, s, o);
    w, t := s[..k], s[k..];
    assert s == w + t by {
      SplitAt(s, k);
    }
    assert o == c by {
      assert e == "";
    }
  }

  /** A non-empty quote-free text, then `close` dropped. */
  lemma TextThenCloseExact(min: nat, close: string, t: string, o: string)
    ensures o in Concat(NotQuoteStar(min), Delete(close))(t) <==> t == o + close && QuoteFree(o) && |o| >= min
  {
    ConcatFixedRight(NotQuoteStar(min), close, "", Delete(close), t);
    if t == o + close {
      assert t[..|t| - |close|] == o;
    }
    if EndsWith(t, close) {
      assert t == t[..|t| - |close|] + close;
    }
    assert o + "" == o;
  }

  /** At most one `g`, introduced by a non-empty run of white space read as one space:
      `m` is read and `b` written. */
  ghost predicate SpacedOrAbsent(g: Rel, m: string, b: string) {
    || (m == "" && b == "")
    || (|b| > 0 && b[0] == ' ' && exists k | 1 <= k <= |m| :: AllWhiteSpace(m[..k]) && b[1..] in g(m[k..]))
  }

  lemma SpacedOrAbsentSound(g: Rel, m: string, b: string)
    requires b in Opt(Concat(DeleteExtraSpace(), g))(m)
    ensures SpacedOrAbsent(g, m, b)
  {
    if b !in Accep("")(m) {
      var k, e, c := ConcatElim(DeleteExtraSpace(), g, m, b);
      DeleteExtraSpaceExact(m[..k], e);
      assert b[1..] == c;
    }
  }

  lemma SpacedOrAbsentComplete(g: Rel, m: string, b: string)
    requires SpacedOrAbsent(g, m, b)
    ensures b in Opt(Concat(DeleteExtraSpace(), g))(m)
  {
    if !(m == "" && b == "") {
      var k :| 1 <= k <= |m| && AllWhiteSpace(m[..k]) && b[1..] in g(m[k..]);
      assert m == m[..k] + m[k..];
      assert b == " " + b[1..];
      SpacedPresentIntro(g, m[..k], m[k..], b[1..]);
    }
  }

  lemma SpacedPresentIntro(g: Rel, w: string, t: string, c: string)
    requires |w| > 0 && AllWhiteSpace(w) && c in g(t)
    ensures " " + c in Opt(Concat(DeleteExtraSpace(), g))(w + t)
  {
    DeleteExtraSpaceExact(w, " ");
    ConcatIntro(DeleteExtraSpace(), g, w, t, " ", c);
  }

  lemma SpacedIntro(g: Rel, w: string, t: string, c: string)
    requires |w| > 0 && AllWhiteSpace(w) && c in g(t)
    ensures SpacedOrAbsent(g, w + t, " " + c)
  {
    assert (w + t)[..|w|] == w && (w + t)[|w|..] == t;
    assert (" " + c)[1..] == c;
  }

  /** At most one `g`, introduced by one space read and written: `y` is read and `c` written. */
  ghost predicate KeptSpaceOrAbsent(g: Rel, y: string, c: string) {
    || (y == "" && c == "")
    || (|y| > 0 && y[0] == ' ' && |c| > 0 && c[0] == ' ' && c[1..] in g(y[1..]))
  }

  lemma KeptSpaceIntro(g: Rel, t: string, c: string)
    requires c in g(t)
    ensures KeptSpaceOrAbsent(g, " " + t, " " + c)
  {
    assert (" " + t)[1..] == t && (" " + c)[1..] == c;
  }

  lemma KeptSpaceOrAbsentExact(g: Rel, y: string, c: string)
    ensures c in Opt(Concat(Accep(" "), g))(y) <==> KeptSpaceOrAbsent(g, y, c)
  {
    if c in Concat(Accep(" "), g)(y) {
      var t, c' := KeptThenElim(" ", g, y, c);
      assert y[1..] == t && c[1..] == c';
    }
    if |y| > 0 && y[0] == ' ' && |c| > 0 && c[0] == ' ' && c[1..] in g(y[1..]) {
      KeptThenIntro(" ", g, y[1..], c[1..]);
      assert " " + y[1..] == y && " " + c[1..] == c;
    }
  }

  /** A keyed field: the key, optional white space and the opening quote are dropped,
      then `body` reads the rest. */
  function KeyedField(key: string, body: Rel): Rel {
    Concat(Delete(key), Concat(DeleteSpace(), Concat(Delete("\""), body)))
  }

  lemma KeyedFieldElim(key: string, body: Rel, s: string, o: string) returns (w: string, t: string)
    requires o in KeyedField(key, body)(s)
    ensures s == key + (w + ("\"" + t)) && AllWhiteSpace(w) && o in body(t)
  {
    var r := DeletedThenElim(key, Concat(DeleteSpace(), Concat(Delete("\""), body)), s, o);
    var w', r' := DeleteSpaceThenElim(Concat(Delete("\""), body), r, o);
    var t' := DeletedThenElim("\"", body, r', o);
    w, t := w', t';
  }

  lemma KeyedFieldIntro(key: string, body: Rel, w: string, t: string, o: string)
    requires AllWhiteSpace(w) && o in body(t)
    ensures o in KeyedField(key, body)(key + (w + ("\"" + t)))
  {
    DeletedThenIntro("\"", body, t, o);
    DeleteSpaceThen(Concat(Delete("\""), body), w, "\"" + t, o);
    DeletedThenIntro(key, Concat(DeleteSpace(), Concat(Delete("\""), body)), w + ("\"" + t), o);
  }

  /** A quote-free text of at least `min` characters, then white space and the closing
      quote, both dropped. */
  lemma TextSpaceCloseElim(min: nat, t: string, o: string) returns (w: string)
    requires o in Concat(NotQuoteStar(min), Concat(DeleteSpace(), Delete("\"")))(t)
    ensures t == o + (w + "\"") && AllWhiteSpace(w) && QuoteFree(o) && |o| >= min
  {
    var k, x, y := ConcatElim(NotQuoteStar(min), Concat(DeleteSpace(), Delete("\"")), t, o);
    var r := t[k..];
    var w', e := DeleteSpaceThenElim(Delete("\""), r, y);
    w := w';
    assert e == "\"" && y == "";
    assert o == x;
    assert t == x + r by {
      SplitAt(t, k);
    }
  }

  lemma TextSpaceCloseIntro(min: nat, o: string, w: string)
    requires AllWhiteSpace(w) && QuoteFree(o) && |o| >= min
    ensures o in Concat(NotQuoteStar(min), Concat(DeleteSpace(), Delete("\"")))(o + (w + "\""))
  {
    assert "" in Delete("\"")("\"");
    DeleteSpaceThen(Delete("\""), w, "\"", "");
    assert o in NotQuoteStar(min)(o);
    ConcatIntro(NotQuoteStar(min), Concat(DeleteSpace(), Delete("\"")), o, w + "\"", o, "");
    assert o + "" == o;
  }

  /** A field holding a quote-free text of at least `min` characters, written unchanged. */
  lemma TextFieldSound(open: string, min: nat, close: string, s: string, o: string)
    requires o in Field(open, NotQuoteStar(min), close)(s)
    ensures s == open + (o + close) && QuoteFree(o) && |o| >= min
  {
    var v := FieldSound(open, NotQuoteStar(min), close, s, o);
  }

  lemma TextFieldComplete(open: string, min: nat, close: string, o: string)
    requires QuoteFree(o) && |o| >= min
    ensures o in Field(open, NotQuoteStar(min), close)(open + (o + close))
  {
    assert o in NotQuoteStar(min)(o);
    FieldComplete(open, NotQuoteStar(min), close, o, o);
  }

  /** A grammar followed by the order-marker deletion. */
  lemma ThenPreserveOrderElim(g: Rel, u: Helpers, s: string, o: string) returns (x: string, t: string)
    requires o in Concat(g, DeletePreserveOrder(u))(s)
    ensures s == x + t && o in g(x) && u.preserveOrderTail(t)
  {
    var k, a, e := ConcatElim(g, DeletePreserveOrder(u), s, o);
    x, t := s[..k], s[k..];
    assert e == "" && o == a;
    assert s == x + t by {
      SplitAt(s, k);
    }
  }

  lemma ThenPreserveOrderIntro(g: Rel, u: Helpers, x: string, t: string, o: string)
    requires o in g(x) && u.preserveOrderTail(t)
    ensures o in Concat(g, DeletePreserveOrder(u))(x + t)
  {
    assert "" in DeletePreserveOrder(u)(t);
    ConcatIntro(g, DeletePreserveOrder(u), x, t, o, "");
    assert o + "" == o;
  }

  /** A field holding either the literal `lit` or any other quote-free text writes its
      quote-free body unchanged. */
  lemma TextOrLiteralFieldSound(open: string, lit: string, close: string, s: string, o: string)
    requires QuoteFree(lit)
    requires o in Field(open, Minus(NotQuoteStar(0), lit), close)(s) || o in Field(open, Accep(lit), close)(s)
    ensures s == open + (o + close) && QuoteFree(o)
  {
    if o in Field(open, Minus(NotQuoteStar(0), lit), close)(s) {
      var v := FieldSound(open, Minus(NotQuoteStar(0), lit), close, s, o);
      TextBody(lit, v, o);
    } else {
      var v := FieldSound(open, Accep(lit), close, s, o);
    }
  }

  /** A quote-free body is read by the literal field exactly when it is the literal, and
      by the other-text field exactly when it is not; both write it unchanged. */
  lemma TextOrLiteralRouting(open: string, lit: string, close: string, v: string, o: string)
    requires QuoteFree(v)
    ensures o in Field(open, Accep(lit), close)(open + (v + close)) <==> v == lit && o == v
    ensures o in Field(open, Minus(NotQuoteStar(0), lit), close)(open + (v + close)) <==> v != lit && o == v
  {
    var s := open + (v + close);
    FieldExact(open, Accep(lit), close, s, o);
    FieldExact(open, Minus(NotQuoteStar(0), lit), close, s, o);
    forall v' | s == open + (v' + close) ensures v' == v {
      FieldBodyUnique(open, close, v', v);
    }
  }

  /** Two quote-free fields, each written through `m`, with white space read and `b`
      written between them; the first field holds any text, `lit` included, whichever of
      its two grammars reads it. */
  lemma JoinedTextFieldsSound(open: string, lit: string, close: string, b: string, open': string, close': string,
                              m: string -> string, s: string, o: string)
    returns (n: string, w: string, d: string)
    requires QuoteFree(lit)
    requires o in Concat(Map(Union(Field(open, Minus(NotQuoteStar(0), lit), close), Field(open, Accep(lit), close)), m),
                         Concat(DeleteSpace(), Concat(Insert(b), Map(Field(open', NotQuoteStar(0), close'), m))))(s)
    ensures QuoteFree(n) && QuoteFree(d) && AllWhiteSpace(w)
    ensures s == (open + (n + close)) + (w + (open' + (d + close')))
    ensures o == m(n) + (b + m(d))
  {
    var first := Union(Field(open, Minus(NotQuoteStar(0), lit), close), Field(open, Accep(lit), close));
    var x, y, a, c;
    x, w, y, a, c := JoinedElim(Map(first, m), b, Map(Field(open', NotQuoteStar(0), close'), m), s, o);
    n, d := JoinedTextFieldsParts(open, lit, close, open', close', m, x, y, a, c);
  }

  lemma JoinedTextFieldsParts(open: string, lit: string, close: string, open': string, close': string,
                              m: string -> string, x: string, y: string, a: string, c: string)
    returns (n: string, d: string)
    requires QuoteFree(lit)
    requires a in Map(Union(Field(open, Minus(NotQuoteStar(0), lit), close), Field(open, Accep(lit), close)), m)(x)
    requires c in Map(Field(open', NotQuoteStar(0), close'), m)(y)
    ensures x == open + (n + close) && QuoteFree(n) && a == m(n)
    ensures y == open' + (d + close') && QuoteFree(d) && c == m(d)
  {
    n := TextOrLiteralMappedSound(open, lit, close, m, x, a);
    d := MapElim(Field(open', NotQuoteStar(0), close'), m, y, c);
    TextFieldSound(open', 0, close', y, d);
  }

  lemma TextOrLiteralMappedSound(open: string, lit: string, close: string, m: string -> string, x: string, a: string)
    returns (n: string)
    requires QuoteFree(lit)
    requires a in Map(Union(Field(open, Minus(NotQuoteStar(0), lit), close), Field(open, Accep(lit), close)), m)(x)
    ensures x == open + (n + close) && QuoteFree(n) && a == m(n)
  {
    n := MapElim(Union(Field(open, Minus(NotQuoteStar(0), lit), close), Field(open, Accep(lit), close)), m, x, a);
    TextOrLiteralFieldSound(open, lit, close, x, n);
  }

  lemma JoinedTextFieldsComplete(open: string, lit: string, close: string, b: string, open': string, close': string,
                                 m: string -> string, n: string, w: string, d: string)
    requires QuoteFree(n) && QuoteFree(d) && AllWhiteSpace(w)
    ensures m(n) + (b + m(d))
         in Concat(Map(Union(Field(open, Minus(NotQuoteStar(0), lit), close), Field(open, Accep(lit), close)), m),
                   Concat(DeleteSpace(), Concat(Insert(b), Map(Field(open', NotQuoteStar(0), close'), m))))
              ((open + (n + close)) + (w + (open' + (d + close'))))
  {
    var first := Union(Field(open, Minus(NotQuoteStar(0), lit), close), Field(open, Accep(lit), close));
    TextOrLiteralRouting(open, lit, close, n, n);
    MapIntro(first, m, open + (n + close), n);
    TextFieldComplete(open', 0, close', d);
    MapIntro(Field(open', NotQuoteStar(0), close'), m, open' + (d + close'), d);
    JoinedIntro(Map(first, m), b, Map(Field(open', NotQuoteStar(0), close'), m),
                open + (n + close), w, open' + (d + close'), m(n), m(d));
  }
}
