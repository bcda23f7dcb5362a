/** The string relations denoted by the transducer expressions the grammars are
    built from. A grammar is modelled by what it means, not by its automaton:
    `g(s)` is the finite set of strings the grammar writes for the input `s`
    (empty when `s` has no path). Each combinator is the relation of the
    transducer operation of the same name. */
module Fst {
  import opened Strings

  type Rel = string -> set<string>

  /** An acceptor of the single string `w`. */
  function Accep(w: string): Rel {
    Cross(w, w)
  }

  /** Reads `a`, writes `b`. */
  function Cross(a: string, b: string): Rel {
    s => if s == a then {b} else {}
  }

  /** Writes `b` without reading anything. */
  function Insert(b: string): Rel {
    Cross("", b)
  }

  /** Reads `a`, writes nothing. */
  function Delete(a: string): Rel {
    Cross(a, "")
  }

  function Union(g: Rel, h: Rel): Rel {
    s => g(s) + h(s)
  }

  /** Concatenation: the input is cut in two, `g` reads the first part and `h` the second. */
  function Concat(g: Rel, h: Rel): Rel {
    s => set k: nat, x, y | k <= |s| && x in g(s[..k]) && y in h(s[k..]) :: x + y
  }

  /** Zero or one pass through `g`. */
  function Opt(g: Rel): Rel {
    Union(Accep(""), g)
  }

  /** Composition: what `g` writes is read by `h`. */
  function Compose(g: Rel, h: Rel): Rel {
    s => set x, y | x in g(s) && y in h(x) :: y
  }

  /** Composition with a rewrite that is a total function of its input. */
  function Map(g: Rel, f: string -> string): Rel {
    s => set x | x in g(s) :: f(x)
  }

  /** The acceptor of at least `min` characters of class `p`. */
  function Star(p: char -> bool, min: nat): Rel {
    s => if |s| >= min && forall i | 0 <= i < |s| :: p(s[i]) then {s} else {}
  }

  /** Reads at least `min` characters of class `p`, writes nothing. */
  function DeleteStar(p: char -> bool, min: nat): Rel {
    s => if |s| >= min && forall i | 0 <= i < |s| :: p(s[i]) then {""} else {}
  }

  /** An acceptor with the single string `w` taken out of its language. */
  function Minus(g: Rel, w: string): Rel {
    s => if s == w then {} else g(s)
  }

  /** The acceptor of a finite language. */
  function AcceptSet(lang: set<string>): Rel {
    s => if s in lang then {s} else {}
  }

  /** A lexical table of (input, output) pairs. */
  function Table(t: set<(string, string)>): Rel {
    s => set p | p in t && p.0 == s :: p.1
  }

  /** Reads what `g` reads, writes nothing. */
  function DeleteInput(g: Rel): Rel {
    s => if g(s) != {} then {""} else {}
  }

  /** Every output of `g` is an output of `h`, for every input. */
  ghost predicate Sub(g: Rel, h: Rel) {
    forall s :: g(s) <= h(s)
  }

  lemma TableMember(t: set<(string, string)>, x: string, o: string)
    ensures o in Table(t)(x) <==> (x, o) in t
  {
    if (x, o) in t {
      var p := (x, o);
      assert p in t && p.0 == x;
    }
  }

  lemma ConcatIntro(g: Rel, h: Rel, a: string, b: string, x: string, y: string)
    requires x in g(a) && y in h(b)
    ensures x + y in Concat(g, h)(a + b)
  {
    var s := a + b;
    assert s[..|a|] == a && s[|a|..] == b;
  }

  lemma ConcatElim(g: Rel, h: Rel, s: string, o: string) returns (k: nat, x: string, y: string)
    requires o in Concat(g, h)(s)
    ensures k <= |s| && x in g(s[..k]) && y in h(s[k..]) && o == x + y
  {
    k, x, y :| k <= |s| && x in g(s[..k]) && y in h(s[k..]) && o == x + y;
  }

  /** A fixed literal in front: the input must start with `a`, and `b` is written first. */
  lemma ConcatFixedLeft(a: string, b: string, g: Rel, h: Rel, s: string)
    requires forall z :: g(z) == Cross(a, b)(z)
    ensures Concat(g, h)(s)
         == if StartsWith(s, a) then (set y | y in h(s[|a|..]) :: b + y) else {}
  {
    var lhs := Concat(g, h)(s);
    if StartsWith(s, a) {
      var rhs := set y | y in h(s[|a|..]) :: b + y;
      forall o | o in rhs ensures o in lhs {
        var y :| y in h(s[|a|..]) && o == b + y;
        assert a + s[|a|..] == s;
        assert b in g(a);
        ConcatIntro(g, h, a, s[|a|..], b, y);
      }
      forall o | o in lhs ensures o in rhs {
        var k, x, y := ConcatElim(g, h, s, o);
        assert x in Cross(a, b)(s[..k]);
        assert |s[..k]| == |a|;
      }
    } else {
      forall o | o in lhs ensures false {
        var k, x, y := ConcatElim(g, h, s, o);
      }
    }
  }

  /** A fixed literal at the back: the input must end with `a`, and `b` is written last. */
  lemma ConcatFixedRight(g: Rel, a: string, b: string, h: Rel, s: string)
    requires forall z :: h(z) == Cross(a, b)(z)
    ensures Concat(g, h)(s)
         == if EndsWith(s, a) then (set x | x in g(s[..|s| - |a|]) :: x + b) else {}
  {
    var lhs := Concat(g, h)(s);
    if EndsWith(s, a) {
      var rhs := set x | x in g(s[..|s| - |a|]) :: x + b;
      forall o | o in rhs ensures o in lhs {
        var x :| x in g(s[..|s| - |a|]) && o == x + b;
        assert s[..|s| - |a|] + a == s;
        assert b in h(a);
        ConcatIntro(g, h, s[..|s| - |a|], a, x, b);
      }
      forall o | o in lhs ensures o in rhs {
        var k, x, y := ConcatElim(g, h, s, o);
        assert y in Cross(a, b)(s[k..]);
        assert |s[k..]| == |a|;
      }
    } else {
      forall o | o in lhs ensures false {
        var k, x, y := ConcatElim(g, h, s, o);
      }
    }
  }

  /** Writing `b` in front of `h`. */
  lemma InsertThen(b: string, h: Rel, s: string)
    ensures Concat(Insert(b), h)(s) == set y | y in h(s) :: b + y
  {
    ConcatFixedLeft("", b, Insert(b), h, s);
    assert StartsWith(s, "") && s[|""|..] == s;
  }

  /** Writing `b` after `g`. */
  lemma ThenInsert(g: Rel, b: string, s: string)
    ensures Concat(g, Insert(b))(s) == set x | x in g(s) :: x + b
  {
    ConcatFixedRight(g, "", b, Insert(b), s);
    assert EndsWith(s, "") && s[..|s| - |""|] == s;
  }

  /** Two insertions, then `g`, then an insertion: `g`'s output framed by fixed text. */
  lemma FramedExact(a: string, b: string, g: Rel, e: string, z: string)
    ensures Concat(Insert(a), Concat(Insert(b), Concat(g, Insert(e))))(z)
         == set f | f in g(z) :: a + (b + (f + e))
  {
    ThenInsert(g, e, z);
    InsertThen(b, Concat(g, Insert(e)), z);
    InsertThen(a, Concat(Insert(b), Concat(g, Insert(e))), z);
  }

  /** Text written in front of a concatenation: introduction. */
  lemma PrefixedConcatIntro(a: string, g: Rel, h: Rel, d: string, m: string, x: string, y: string)
    requires x in g(d) && y in h(m)
    ensures a + (x + y) in Concat(Insert(a), Concat(g, h))(d + m)
  {
    ConcatIntro(g, h, d, m, x, y);
    InsertThen(a, Concat(g, h), d + m);
  }

  /** Text written in front of a concatenation: elimination. */
  lemma PrefixedConcatElim(a: string, g: Rel, h: Rel, s: string, o: string) returns (k: nat, x: string, y: string)
    requires o in Concat(Insert(a), Concat(g, h))(s)
    ensures k <= |s| && x in g(s[..k]) && y in h(s[k..]) && o == a + (x + y)
  {
    InsertThen(a, Concat(g, h), s);
    var w :| w in Concat(g, h)(s) && o == a + w;
    k, x, y := ConcatElim(g, h, s, w);
  }

  /** Text written in front of `g`, then a framed `h`: elimination. */
  lemma PrefixedFramedElim(a: string, g: Rel, b: string, c: string, h: Rel, e: string, s: string, o: string)
    returns (k: nat, x: string, f: string)
    requires o in Concat(Insert(a), Concat(g, Concat(Insert(b), Concat(Insert(c), Concat(h, Insert(e))))))(s)
    ensures k <= |s| && x in g(s[..k]) && f in h(s[k..]) && o == a + (x + (b + (c + (f + e))))
  {
    var z;
    k, x, z := PrefixedConcatElim(a, g, Concat(Insert(b), Concat(Insert(c), Concat(h, Insert(e)))), s, o);
    FramedExact(b, c, h, e, s[k..]);
    f :| f in h(s[k..]) && z == b + (c + (f + e));
  }

  /** `o` is `a`, what `g` writes for a prefix of `s`, `b`, `c`, what `h` writes for the
      rest of `s`, and `e`. */
  ghost predicate PrefixedFramedReading(a: string, g: Rel, b: string, c: string, h: Rel, e: string, s: string, o: string) {
    exists k: nat, x, f :: k <= |s| && x in g(s[..k]) && f in h(s[k..]) && o == a + (x + (b + (c + (f + e))))
  }

  lemma PrefixedFramedExact(a: string, g: Rel, b: string, c: string, h: Rel, e: string, s: string, o: string)
    ensures o in Concat(Insert(a), Concat(g, Concat(Insert(b), Concat(Insert(c), Concat(h, Insert(e))))))(s)
        <==> PrefixedFramedReading(a, g, b, c, h, e, s, o)
  {
    var framed := Concat(Insert(b), Concat(Insert(c), Concat(h, Insert(e))));
    if o in Concat(Insert(a), Concat(g, framed))(s) {
      var k, x, f := PrefixedFramedElim(a, g, b, c, h, e, s, o);
    }
    if PrefixedFramedReading(a, g, b, c, h, e, s, o) {
      var k: nat, x, f :| k <= |s| && x in g(s[..k]) && f in h(s[k..]) && o == a + (x + (b + (c + (f + e))));
      PrefixedFramedIntro(a, g, b, c, h, e, s, k, x, f);
    }
  }

  lemma PrefixedFramedIntro(a: string, g: Rel, b: string, c: string, h: Rel, e: string, s: string, k: nat, x: string, f: string)
    requires k <= |s| && x in g(s[..k]) && f in h(s[k..])
    ensures a + (x + (b + (c + (f + e)))) in Concat(Insert(a), Concat(g, Concat(Insert(b), Concat(Insert(c), Concat(h, Insert(e))))))(s)
  {
    var framed := Concat(Insert(b), Concat(Insert(c), Concat(h, Insert(e))));
    assert s[..k] + s[k..] == s;
    FramedExact(b, c, h, e, s[k..]);
    assert b + (c + (f + e)) in framed(s[k..]);
    PrefixedConcatIntro(a, g, framed, s[..k], s[k..], x, b + (c + (f + e)));
  }

  /** `x` is something `g` reads, one space and something `h` reads; `o` is what `g`
      writes for the first, one space, and what `h` writes for the second. */
  ghost predicate SpacedTail(g: Rel, h: Rel, x: string, o: string) {
    exists p, a, q, r :: x == p + (" " + q) && a in g(p) && r in h(q) && o == a + (" " + r)
  }

  /** `g`, then optionally one space and `h`. */
  function ThenSpacedTail(g: Rel, h: Rel): Rel {
    Concat(g, Opt(Concat(Accep(" "), h)))
  }

  lemma SpacedTailSound(g: Rel, h: Rel, x: string, o: string)
    requires o in ThenSpacedTail(g, h)(x)
    ensures o in g(x) || SpacedTail(g, h, x, o)
  {
    var k, a, y := ConcatElim(g, Opt(Concat(Accep(" "), h)), x, o);
    SpacedTailCases(g, h, x[..k], x[k..], a, y);
    assert x == x[..k] + x[k..];
  }

  lemma SpacedTailCases(g: Rel, h: Rel, p: string, t: string, a: string, y: string)
    requires a in g(p) && y in Opt(Concat(Accep(" "), h))(t)
    ensures a + y in g(p + t) || SpacedTail(g, h, p + t, a + y)
  {
    if y == "" && t == "" {
      assert p + t == p && a + y == a;
    } else {
      SpacedTailIntro(g, h, p, t, a, y);
    }
  }

  lemma SpacedTailIntro(g: Rel, h: Rel, p: string, t: string, a: string, y: string)
    requires a in g(p) && y in Concat(Accep(" "), h)(t)
    ensures SpacedTail(g, h, p + t, a + y)
  {
    ConcatFixedLeft(" ", " ", Accep(" "), h, t);
    var q := t[1..];
    var r :| r in h(q) && y == " " + r;
    assert t == " " + q;
  }

  lemma SpacedTailWitness(g: Rel, h: Rel, x: string, o: string) returns (p: string, a: string, q: string, r: string)
    requires SpacedTail(g, h, x, o)
    ensures x == p + (" " + q) && a in g(p) && r in h(q) && o == a + (" " + r)
  {
    p, a, q, r :| x == p + (" " + q) && a in g(p) && r in h(q) && o == a + (" " + r);
  }

  lemma SpacedTailComplete(g: Rel, h: Rel, x: string, o: string)
    requires o in g(x) || SpacedTail(g, h, x, o)
    ensures o in ThenSpacedTail(g, h)(x)
  {
    var spaced := Concat(Accep(" "), h);
    if o in g(x) {
      assert "" in Opt(spaced)("");
      ConcatIntro(g, Opt(spaced), x, "", o, "");
      assert x + "" == x && o + "" == o;
    } else {
      var p, a, q, r :| x == p + (" " + q) && a in g(p) && r in h(q) && o == a + (" " + r);
      ConcatIntro(Accep(" "), h, " ", q, " ", r);
      assert " " + r in Opt(spaced)(" " + q);
      ConcatIntro(g, Opt(spaced), p, " " + q, a, " " + r);
    }
  }

  lemma SubRefl(g: Rel)
    ensures Sub(g, g)
  {
  }

  lemma UnionLeft(g: Rel, h: Rel)
    ensures Sub(g, Union(g, h))
  {
  }

  lemma UnionMono(g: Rel, g': Rel, h: Rel, h': Rel)
    requires Sub(g, g') && Sub(h, h')
    ensures Sub(Union(g, h), Union(g', h'))
  {
  }

  /** A word of `lang` read by `h`, then a relation that reads exactly `a` and writes `b`. */
  lemma AcceptSetThenFixed(lang: set<string>, h: Rel, right: Rel, a: string, b: string, x: string, o: string)
    requires forall z :: right(z) == Cross(a, b)(z)
    ensures o in Concat(Compose(AcceptSet(lang), h), right)(x)
        <==> exists c, r :: c in lang && r in h(c) && x == c + a && o == r + b
  {
    var left := Compose(AcceptSet(lang), h);
    ConcatFixedRight(left, a, b, right, x);
    if o in Concat(left, right)(x) {
      var c := x[..|x| - |a|];
      assert x == c + a by {
        assert x[|x| - |a|..] == a;
      }
      var r :| r in left(c) && o == r + b;
      var d :| d in AcceptSet(lang)(c) && r in h(d);
    }
    if exists c, r :: c in lang && r in h(c) && x == c + a && o == r + b {
      var c, r :| c in lang && r in h(c) && x == c + a && o == r + b;
      assert x[..|x| - |a|] == c;
      assert c in AcceptSet(lang)(c);
      assert r in left(c);
    }
  }

  /** A relation `k` read from what `f` writes, then rewritten by `e`; unless `only` holds,
      also rewritten by `s` before `e`. */
  lemma ReadThenRewrite(g: Rel, f: Rel, k: Rel, s: string -> string, e: string -> string, only: bool, x: string, o: string)
    requires g == Map(if only then Compose(f, k) else Union(Compose(f, k), Map(Compose(f, k), s)), e)
    ensures o in g(x) <==> exists y, w :: y in f(x) && w in k(y) && (o == e(w) || (!only && o == e(s(w))))
  {
    var core := Compose(f, k);
    var split := if only then core else Union(core, Map(core, s));
    if o in Map(split, e)(x) {
      var v :| v in split(x) && o == e(v);
      if v in core(x) {
        var y :| y in f(x) && v in k(y);
      } else {
        var w :| w in core(x) && v == s(w);
        var y :| y in f(x) && w in k(y);
      }
    }
    if exists y, w :: y in f(x) && w in k(y) && (o == e(w) || (!only && o == e(s(w)))) {
      var y, w :| y in f(x) && w in k(y) && (o == e(w) || (!only && o == e(s(w))));
      assert w in core(x);
      if o != e(w) {
        assert s(w) in Map(core, s)(x);
      }
    }
  }

  /** A union of three keeps its outputs when its first two members gain alternatives. */
  lemma UnionWidenFirstTwo(a: Rel, a': Rel, b: Rel, b': Rel, c: Rel)
    ensures Sub(Union(Union(a, b), c), Union(Union(Union(a, a'), Union(b, b')), c))
  {
    UnionLeft(a, a');
    UnionLeft(b, b');
    UnionMono(a, Union(a, a'), b, Union(b, b'));
    SubRefl(c);
    UnionMono(Union(a, b), Union(Union(a, a'), Union(b, b')), c, c);
  }

  lemma ConcatMono(g: Rel, g': Rel, h: Rel, h': Rel)
    requires Sub(g, g') && Sub(h, h')
    ensures Sub(Concat(g, h), Concat(g', h'))
  {
    forall s ensures Concat(g, h)(s) <= Concat(g', h')(s) {
      forall o | o in Concat(g, h)(s) ensures o in Concat(g', h')(s) {
        var k, x, y := ConcatElim(g, h, s, o);
        assert x in g'(s[..k]) && y in h'(s[k..]);
        ConcatIntro(g', h', s[..k], s[k..], x, y);
        assert s[..k] + s[k..] == s;
      }
    }
  }

  lemma ComposeMono(g: Rel, g': Rel, h: Rel, h': Rel)
    requires Sub(g, g') && Sub(h, h')
    ensures Sub(Compose(g, h), Compose(g', h'))
  {
    forall s ensures Compose(g, h)(s) <= Compose(g', h')(s) {
      forall o | o in Compose(g, h)(s) ensures o in Compose(g', h')(s) {
        var x :| x in g(s) && o in h(x);
        assert x in g'(s) && o in h'(x);
      }
    }
  }

  lemma MapMono(g: Rel, g': Rel, f: string -> string)
    requires Sub(g, g')
    ensures Sub(Map(g, f), Map(g', f))
  {
    forall s ensures Map(g, f)(s) <= Map(g', f)(s) {
      forall o | o in Map(g, f)(s) ensures o in Map(g', f)(s) {
        var x :| x in g(s) && o == f(x);
        assert x in g'(s);
      }
    }
  }

  /** Deleting `a` and inserting `b` is crossing `a` to `b`. */
  lemma DeleteInsertExact(a: string, b: string, z: string)
    ensures Concat(Delete(a), Insert(b))(z) == Cross(a, b)(z)
  {
    ConcatFixedLeft(a, "", Delete(a), Insert(b), z);
    if StartsWith(z, a) {
      if z[|a|..] == "" {
        assert z == a by {
          assert z == z[..|a|] + z[|a|..];
        }
        assert "" + b == b;
      } else {
        assert z != a;
      }
    }
  }

  /** `g`, then a final `a` read and replaced by `b`. */
  lemma ThenReplaceExact(g: Rel, a: string, b: string, s: string, o: string)
    ensures o in Concat(g, Concat(Delete(a), Insert(b)))(s)
        <==> EndsWith(s, a) && EndsWith(o, b) && o[..|o| - |b|] in g(s[..|s| - |a|])
  {
    forall z ensures Concat(Delete(a), Insert(b))(z) == Cross(a, b)(z) {
      DeleteInsertExact(a, b, z);
    }
    ConcatFixedRight(g, a, b, Concat(Delete(a), Insert(b)), s);
    if EndsWith(o, b) {
      assert o == o[..|o| - |b|] + b;
    }
    if o in Concat(g, Concat(Delete(a), Insert(b)))(s) {
      var x :| x in g(s[..|s| - |a|]) && o == x + b;
      assert o[..|x|] == x && o[|x|..] == b;
    }
  }

  /** A composition with `Cross(a, b)` is empty when `g` never writes `a`. */
  lemma ComposeCrossEmpty(g: Rel, a: string, b: string, s: string)
    requires forall x | x in g(s) :: x != a
    ensures Compose(g, Cross(a, b))(s) == {}
  {
  }

  /** Nothing that ends in `b` is `c` when `c` does not end in `b`; so a composition with
      `Cross(c, d)` after a final replacement by `b` is empty. */
  lemma ReplaceThenCrossEmpty(g: Rel, a: string, b: string, c: string, d: string, s: string)
    requires !EndsWith(c, b)
    ensures Compose(Concat(g, Concat(Delete(a), Insert(b))), Cross(c, d))(s) == {}
  {
    var h := Concat(g, Concat(Delete(a), Insert(b)));
    forall x | x in h(s) ensures x != c {
      ThenReplaceExact(g, a, b, s, x);
    }
    ComposeCrossEmpty(h, c, d, s);
  }

  /** A composition with `Cross(a, b)` writes `b`, and only when `g` writes `a`. */
  lemma ComposeCrossElim(g: Rel, a: string, b: string, s: string, o: string)
    requires o in Compose(g, Cross(a, b))(s)
    ensures o == b && a in g(s)
  {
  }

  lemma MapElim(g: Rel, f: string -> string, s: string, o: string) returns (x: string)
    requires o in Map(g, f)(s)
    ensures x in g(s) && o == f(x)
  {
    x :| x in g(s) && o == f(x);
  }

  lemma MapIntro(g: Rel, f: string -> string, s: string, x: string)
    requires x in g(s)
    ensures f(x) in Map(g, f)(s)
  {
  }

  /** An optional `g` in front of `h`: taken. */
  lemma OptThenTaken(g: Rel, h: Rel, s: string, o: string)
    requires o in Concat(g, h)(s)
    ensures o in Concat(Opt(g), h)(s)
  {
    var k, x, y := ConcatElim(g, h, s, o);
    ConcatIntro(Opt(g), h, s[..k], s[k..], x, y);
    SplitAt(s, k);
  }

  /** An optional `g` in front of `h`: skipped. */
  lemma OptThenSkip(g: Rel, h: Rel, b: string, y: string)
    requires y in h(b)
    ensures y in Concat(Opt(g), h)(b)
  {
    assert "" in Opt(g)("");
    ConcatIntro(Opt(g), h, "", b, "", y);
    assert "" + b == b && "" + y == y;
  }

  /** An optional `g` in front of `h`: either skipped or taken. */
  lemma OptThenCases(g: Rel, h: Rel, s: string, o: string)
    requires o in Concat(Opt(g), h)(s)
    ensures o in h(s) || o in Concat(g, h)(s)
  {
    var k, x, y := ConcatElim(Opt(g), h, s, o);
    if x in g(s[..k]) {
      ConcatIntro(g, h, s[..k], s[k..], x, y);
      SplitAt(s, k);
    } else {
      assert s[..k] == "" && x == "";
      assert s[k..] == s && o == y;
    }
  }

  /** Concatenation is associative: regrouping to the right. */
  lemma ConcatRegroupRight(g: Rel, k: Rel, h: Rel, s: string, o: string)
    requires o in Concat(Concat(g, k), h)(s)
    ensures o in Concat(g, Concat(k, h))(s)
  {
    var i, xz, y := ConcatElim(Concat(g, k), h, s, o);
    var p := s[..i];
    var j, x, z := ConcatElim(g, k, p, xz);
    assert o == x + (z + y);
    RegroupRightParts(g, k, h, s, i, j, x, z, y);
  }

  /** Three readings of the pieces of `s` cut at `j <= i` make a reading grouped to the right. */
  lemma RegroupRightParts(g: Rel, k: Rel, h: Rel, s: string, i: nat, j: nat, x: string, z: string, y: string)
    requires j <= i <= |s|
    requires x in g(s[..i][..j]) && z in k(s[..i][j..]) && y in h(s[i..])
    ensures x + (z + y) in Concat(g, Concat(k, h))(s)
  {
    assert s == s[..i][..j] + (s[..i][j..] + s[i..]) by {
      SplitAt(s[..i], j);
      SplitAt(s, i);
    }
    Concat3Intro(g, k, h, s[..i][..j], s[..i][j..], s[i..], x, z, y);
  }

  /** Concatenation is associative: regrouping to the left. */
  lemma ConcatRegroupLeft(g: Rel, k: Rel, h: Rel, s: string, o: string)
    requires o in Concat(g, Concat(k, h))(s)
    ensures o in Concat(Concat(g, k), h)(s)
  {
    var i, x, zy := ConcatElim(g, Concat(k, h), s, o);
    var q := s[i..];
    var j, z, y := ConcatElim(k, h, q, zy);
    var a, b, c := s[..i], q[..j], q[j..];
    assert s == (a + b) + c by {
      SplitAt(q, j);
      SplitAt(s, i);
    }
    assert o == (x + z) + y;
    ConcatIntro(g, k, a, b, x, z);
    ConcatIntro(Concat(g, k), h, a + b, c, x + z, y);
  }

  /** Three relations in a row, grouped to the right. */
  lemma Concat3Elim(g1: Rel, g2: Rel, g3: Rel, s: string, o: string)
      returns (x1: string, x2: string, x3: string, a1: string, a2: string, a3: string)
    requires o in Concat(g1, Concat(g2, g3))(s)
    ensures s == x1 + (x2 + x3) && a1 in g1(x1) && a2 in g2(x2) && a3 in g3(x3) && o == a1 + (a2 + a3)
  {
    var k, a1', z := ConcatElim(g1, Concat(g2, g3), s, o);
    var t := s[k..];
    var k', a2', a3' := ConcatElim(g2, g3, t, z);
    x1, x2, x3, a1, a2, a3 := s[..k], t[..k'], t[k'..], a1', a2', a3';
    assert s == x1 + (x2 + x3) by {
      SplitAt(t, k');
      SplitAt(s, k);
    }
  }

  lemma Concat3Intro(g1: Rel, g2: Rel, g3: Rel, x1: string, x2: string, x3: string, a1: string, a2: string, a3: string)
    requires a1 in g1(x1) && a2 in g2(x2) && a3 in g3(x3)
    ensures a1 + (a2 + a3) in Concat(g1, Concat(g2, g3))(x1 + (x2 + x3))
  {
    ConcatIntro(g2, g3, x2, x3, a2, a3);
    ConcatIntro(g1, Concat(g2, g3), x1, x2 + x3, a1, a2 + a3);
  }

  /** A literal `a` read and written back in front of `h`. */
  lemma KeptThenElim(a: string, h: Rel, s: string, o: string) returns (t: string, c: string)
    requires o in Concat(Accep(a), h)(s)
    ensures s == a + t && c in h(t) && o == a + c
  {
    var k, x, c' := ConcatElim(Accep(a), h, s, o);
    t, c := s[k..], c';
    assert s == a + t by {
      SplitAt(s, k);
    }
  }

  lemma KeptThenIntro(a: string, h: Rel, t: string, c: string)
    requires c in h(t)
    ensures a + c in Concat(Accep(a), h)(a + t)
  {
    assert a in Accep(a)(a);
    ConcatIntro(Accep(a), h, a, t, a, c);
  }

  /** A literal `a` read and dropped in front of `h`. */
  lemma DeletedThenElim(a: string, h: Rel, s: string, o: string) returns (t: string)
    requires o in Concat(Delete(a), h)(s)
    ensures s == a + t && o in h(t)
  {
    var k, x, c := ConcatElim(Delete(a), h, s, o);
    t := s[k..];
    assert s == a + t by {
      SplitAt(s, k);
    }
    assert o == c by {
      assert x == "";
    }
  }

  lemma DeletedThenIntro(a: string, h: Rel, t: string, c: string)
    requires c in h(t)
    ensures c in Concat(Delete(a), h)(a + t)
  {
    assert "" in Delete(a)(a);
    ConcatIntro(Delete(a), h, a, t, "", c);
    assert "" + c == c;
  }
}
