/** Languages over sequences of element names. */
module Languages {
  type Word = seq<string>
  type Language = iset<Word>

  /** The occurrence indicators of a content particle. */
  datatype Occur = Once | Opt | Mult | Plus

  ghost function Cat(a: Language, b: Language): Language {
    iset u: Word, v: Word | u in a && v in b :: u + v
  }

  ghost function Flat(parts: seq<Word>): Word {
    if parts == [] then [] else parts[0] + Flat(parts[1..])
  }

  ghost predicate AllIn(a: Language, parts: seq<Word>) {
    forall i :: 0 <= i < |parts| ==> parts[i] in a
  }

  /** `w` is a concatenation of words of `a`. */
  ghost predicate InStar(a: Language, w: Word) {
    exists parts: seq<Word> :: AllIn(a, parts) && Flat(parts) == w
  }

  ghost function Star(a: Language): Language {
    iset w: Word | InStar(a, w)
  }

  /** What an occurrence indicator makes of a language (section 3.2.1 of XML 1.0). */
  ghost function Rep(o: Occur, a: Language): Language {
    match o
    case Once => a
    case Opt => a + iset{[]}
    case Mult => Star(a)
    case Plus => Cat(a, Star(a))
  }

  lemma StarHas(a: Language, w: Word)
    ensures [] in Star(a)
    ensures w in a ==> w in Star(a)
  {
    assert AllIn(a, []) && Flat([]) == [];
    if w in a {
      assert [w][1..] == [];
      assert Flat([w]) == w + [] == w;
      assert AllIn(a, [w]);
    }
  }

  lemma {:induction false} FlatAppend(p: seq<Word>, q: seq<Word>)
    ensures Flat(p + q) == Flat(p) + Flat(q)
  {
    if p == [] {
      assert p + q == q;
    } else {
      assert (p + q)[1..] == p[1..] + q;
      FlatAppend(p[1..], q);
    }
  }

  lemma StarCat(a: Language, u: Word, v: Word)
    requires u in Star(a) && v in Star(a)
    ensures u + v in Star(a)
  {
    var p :| AllIn(a, p) && Flat(p) == u;
    var q :| AllIn(a, q) && Flat(q) == v;
    FlatAppend(p, q);
    assert AllIn(a, p + q);
  }

  /** A language within the star of another stays there under concatenation. */
  lemma {:induction false} FlatInStar(a: Language, b: Language, parts: seq<Word>)
    requires a <= Star(b) && AllIn(a, parts)
    ensures Flat(parts) in Star(b)
  {
    StarHas(b, []);
    if parts != [] {
      assert AllIn(a, parts[1..]);
      FlatInStar(a, b, parts[1..]);
      StarCat(b, parts[0], Flat(parts[1..]));
    }
  }

  lemma StarLeast(a: Language, b: Language)
    requires a <= Star(b)
    ensures Star(a) <= Star(b)
  {
    forall w | w in Star(a) ensures w in Star(b) {
      var parts :| AllIn(a, parts) && Flat(parts) == w;
      FlatInStar(a, b, parts);
    }
  }

  /** Two languages between which lies only the star of the smaller have the same star. */
  lemma StarBetween(a: Language, b: Language)
    requires a <= b <= Star(a)
    ensures Star(a) == Star(b)
  {
    forall w | w in a ensures w in Star(b) {
      StarHas(b, w);
    }
    StarLeast(a, b);
    StarLeast(b, a);
  }

  /** `a*` is `a a*` with or without the empty word. */
  lemma StarUnfold(a: Language, w: Word)
    requires w in Star(a)
    ensures w == [] || w in Cat(a, Star(a))
  {
    var parts :| AllIn(a, parts) && Flat(parts) == w;
    if parts != [] {
      assert AllIn(a, parts[1..]);
      assert Flat(parts[1..]) in Star(a);
    }
  }

  lemma PlusInStar(a: Language)
    ensures Cat(a, Star(a)) <= Star(a)
  {
    forall w | w in Cat(a, Star(a)) ensures w in Star(a) {
      var u: Word, v: Word :| u in a && v in Star(a) && w == u + v;
      StarHas(a, u);
      StarCat(a, u, v);
    }
  }

  lemma InPlus(a: Language, w: Word)
    requires w in a
    ensures w in Cat(a, Star(a))
  {
    StarHas(a, []);
    assert w == w + [];
  }

  lemma PlusIsStar(a: Language)
    requires [] in a
    ensures Cat(a, Star(a)) == Star(a)
  {
    PlusInStar(a);
    forall w | w in Star(a) ensures w in Cat(a, Star(a)) {
      assert w == [] + w;
    }
  }

  lemma EmptyInPlus(a: Language)
    ensures [] in Cat(a, Star(a)) <==> [] in a
  {
    if [] in Cat(a, Star(a)) {
      var u: Word, v: Word :| u in a && v in Star(a) && [] == u + v;
      assert u == [];
    }
    if [] in a {
      InPlus(a, []);
    }
  }

  lemma StarOfStar(a: Language)
    ensures Star(Star(a)) == Star(a)
  {
    forall w | w in a ensures w in Star(a) {
      StarHas(a, w);
    }
    StarBetween(a, Star(a));
  }

  lemma StarOfOpt(a: Language)
    ensures Star(a + iset{[]}) == Star(a)
  {
    forall w | w in a + iset{[]} ensures w in Star(a) {
      StarHas(a, w);
    }
    StarBetween(a, a + iset{[]});
  }

  lemma StarOfPlus(a: Language)
    ensures Star(Cat(a, Star(a))) == Star(a)
  {
    PlusInStar(a);
    forall w | w in a ensures w in Cat(a, Star(a)) {
      InPlus(a, w);
    }
    StarBetween(a, Cat(a, Star(a)));
  }

  /** Every occurrence indicator keeps the star. */
  lemma StarOfRep(o: Occur, a: Language)
    ensures Star(Rep(o, a)) == Star(a)
  {
    match o
    case Once =>
    case Opt => StarOfOpt(a);
    case Mult => StarOfStar(a);
    case Plus => StarOfPlus(a);
  }

  lemma RepInStar(o: Occur, a: Language)
    ensures a <= Rep(o, a) <= Star(a)
  {
    forall w | w in a ensures w in Rep(o, a) && w in Star(a) {
      StarHas(a, w);
      InPlus(a, w);
    }
    PlusInStar(a);
    StarHas(a, []);
  }

  /** When a group's suffix meets the mark its only item already carries: the folded mark. */
  function FoldMark(inner: Occur, suffix: Occur): Occur {
    match suffix
    case Once => inner
    case Opt => if inner == Plus then Mult else Opt
    case Mult => Mult
    case Plus => if inner == Opt then Mult else Plus
  }

  ghost predicate ClosedUnderCat(a: Language) {
    forall u, v :: u in a && v in a ==> u + v in a
  }

  /**
   * Folding two occurrence indicators into one is right for a language unless `?` or `+` falls on `*`; there
   * it is right exactly when the language (with the empty word) is closed under concatenation, respectively
   * holds the empty word.
   */
  lemma FoldMarkExact(inner: Occur, suffix: Occur, a: Language)
    ensures Rep(FoldMark(inner, suffix), a) == Rep(suffix, Rep(inner, a)) <==>
      !(inner == Mult && suffix == Opt && !ClosedUnderCat(a + iset{[]})) &&
      !(inner == Mult && suffix == Plus && [] !in a)
  {
    StarOfRep(inner, a);
    match suffix {
      case Once =>
      case Mult =>
      case Opt => FoldOpt(inner, a);
      case Plus => FoldPlus(inner, a);
    }
  }

  /** One mark can stand for two, whatever they are applied to, unless `?` or `+` falls on `*`. */
  lemma FoldMarkAlways(inner: Occur, suffix: Occur)
    ensures (forall a: Language :: Folds(inner, suffix, a)) <==> !(inner == Mult && (suffix == Opt || suffix == Plus))
  {
    if inner == Mult && (suffix == Opt || suffix == Plus) {
      FoldMarkBreaks(suffix);
    } else {
      forall a: Language ensures Folds(inner, suffix, a) {
        FoldMarkExact(inner, suffix, a);
      }
    }
  }

  ghost predicate Folds(inner: Occur, suffix: Occur, a: Language) {
    Rep(FoldMark(inner, suffix), a) == Rep(suffix, Rep(inner, a))
  }

  lemma FoldMarkBreaks(suffix: Occur)
    requires suffix == Opt || suffix == Plus
    ensures exists a: Language :: !Folds(Mult, suffix, a)
  {
    var one: Language := iset{["a"]};
    FoldMarkExact(Mult, suffix, one);
    var b := one + iset{[]};
    var w: Word := ["a"];
    assert w in b && |w + w| == 2;
    assert w + w !in b;
    assert !Folds(Mult, suffix, one);
  }

  lemma OptClosed(a: Language)
    ensures a + iset{[]} == Star(a) <==> ClosedUnderCat(a + iset{[]})
  {
    var b := a + iset{[]};
    StarOfOpt(a);
    if ClosedUnderCat(b) {
      forall w | w in Star(a) ensures w in b {
        var parts :| AllIn(b, parts) && Flat(parts) == w;
        FlatClosed(b, parts);
      }
      RepInStar(Opt, a);
    }
    if b == Star(a) {
      forall u, v | u in b && v in b ensures u + v in b {
        StarCat(a, u, v);
      }
    }
  }

  lemma {:induction false} FlatClosed(b: Language, parts: seq<Word>)
    requires ClosedUnderCat(b) && [] in b && AllIn(b, parts)
    ensures Flat(parts) in b
  {
    if parts != [] {
      assert AllIn(b, parts[1..]);
      FlatClosed(b, parts[1..]);
    }
  }

  lemma FoldOpt(inner: Occur, a: Language)
    ensures Rep(FoldMark(inner, Opt), a) == Rep(Opt, Rep(inner, a)) <==>
      !(inner == Mult && !ClosedUnderCat(a + iset{[]}))
  {
    StarHas(a, []);
    match inner {
      case Once =>
      case Opt =>
        assert a + iset{[]} + iset{[]} == a + iset{[]};
      case Mult =>
        OptClosed(a);
        assert Star(a) + iset{[]} == Star(a);
      case Plus =>
        PlusInStar(a);
        forall w | w in Star(a) ensures w in Cat(a, Star(a)) + iset{[]} {
          StarUnfold(a, w);
        }
        assert Cat(a, Star(a)) + iset{[]} == Star(a);
    }
  }

  lemma CatHas(a: Language, b: Language, u: Word, v: Word)
    requires u in a && v in b
    ensures u + v in Cat(a, b)
  {
  }

  lemma CatSplit(a: Language, b: Language, w: Word) returns (u: Word, v: Word)
    requires w in Cat(a, b)
    ensures u in a && v in b && w == u + v
  {
    u, v :| u in a && v in b && w == u + v;
  }

  lemma PlusOfOpt(a: Language)
    ensures Cat(a + iset{[]}, Star(a + iset{[]})) == Star(a)
  {
    StarOfOpt(a);
    PlusIsStar(a + iset{[]});
  }

  lemma PlusOfStar(a: Language)
    ensures Cat(Star(a), Star(Star(a))) == Star(a)
  {
    StarHas(a, []);
    StarOfStar(a);
    PlusIsStar(Star(a));
  }

  lemma PlusOfPlus(a: Language)
    ensures Cat(Cat(a, Star(a)), Star(Cat(a, Star(a)))) == Cat(a, Star(a))
  {
    StarOfPlus(a);
    PlusThenStar(a);
  }

  lemma PlusMeetsStar(a: Language)
    ensures Cat(a, Star(a)) == Star(a) <==> [] in a
  {
    StarHas(a, []);
    EmptyInPlus(a);
    if [] in a {
      PlusIsStar(a);
    }
  }

  lemma FoldPlus(inner: Occur, a: Language)
    ensures Rep(FoldMark(inner, Plus), a) == Rep(Plus, Rep(inner, a)) <==> !(inner == Mult && [] !in a)
  {
    match inner {
      case Once =>
      case Opt => PlusOfOpt(a);
      case Mult =>
        PlusOfStar(a);
        PlusMeetsStar(a);
      case Plus => PlusOfPlus(a);
    }
  }

  lemma PlusThenStar(a: Language)
    ensures Cat(Cat(a, Star(a)), Star(a)) == Cat(a, Star(a))
  {
    var p := Cat(a, Star(a));
    forall w | w in Cat(p, Star(a)) ensures w in p {
      var u, v := CatSplit(p, Star(a), w);
      var x, y := CatSplit(a, Star(a), u);
      StarCat(a, y, v);
      CatHas(a, Star(a), x, y + v);
      assert w == x + (y + v);
    }
    forall w | w in p ensures w in Cat(p, Star(a)) {
      StarHas(a, []);
      CatHas(p, Star(a), w, []);
      assert w == w + [];
    }
  }

  // ----- smaller languages -----

  lemma CatGrows(a: Language, b: Language, c: Language, d: Language)
    requires a <= c && b <= d
    ensures Cat(a, b) <= Cat(c, d)
  {
    forall w | w in Cat(a, b) ensures w in Cat(c, d) {
      var u, v := CatSplit(a, b, w);
      CatHas(c, d, u, v);
    }
  }

  // ----- what the marks mean -----

  /** `w` is put together from `n` words of `a`. */
  ghost predicate InTimes(a: Language, w: Word, n: nat)
    decreases n
  {
    if n == 0 then w == [] else exists u: Word, v: Word :: u in a && InTimes(a, v, n - 1) && w == u + v
  }

  lemma {:induction false} TimesInStar(a: Language, w: Word, n: nat)
    requires InTimes(a, w, n)
    ensures w in Star(a)
    decreases n
  {
    StarHas(a, []);
    if n > 0 {
      var u: Word, v: Word :| u in a && InTimes(a, v, n - 1) && w == u + v;
      TimesInStar(a, v, n - 1);
      StarHas(a, u);
      StarCat(a, u, v);
    }
  }

  lemma {:induction false} FlatTimes(a: Language, parts: seq<Word>)
    requires AllIn(a, parts)
    ensures InTimes(a, Flat(parts), |parts|)
  {
    if parts != [] {
      FlatTimes(a, parts[1..]);
      assert parts[0] in a && Flat(parts) == parts[0] + Flat(parts[1..]);
    }
  }

  /** `?` is at most once, `*` any number of times, `+` at least once. */
  lemma RepExactly(o: Occur, a: Language, w: Word)
    ensures w in Rep(o, a) <==>
      exists n: nat :: InTimes(a, w, n) && (o == Mult || (o == Plus && n >= 1) || (o == Opt && n <= 1) || (o == Once && n == 1))
  {
    hide Star, Cat;
    TimesOne(a, w);
    assert InTimes(a, [], 0);
    if w in Star(a) {
      StarTimes(a, w);
    }
    PlusTimes(a, w);
    forall n: nat | InTimes(a, w, n) ensures w in Star(a) {
      TimesInStar(a, w, n);
    }
  }

  lemma TimesOne(a: Language, w: Word)
    ensures InTimes(a, w, 1) <==> w in a
    ensures InTimes(a, w, 0) <==> w == []
  {
    if w in a {
      assert InTimes(a, [], 0) && w == w + [];
    }
    if InTimes(a, w, 1) {
      var u: Word, v: Word :| u in a && InTimes(a, v, 0) && w == u + v;
      assert w == u;
    }
  }

  lemma StarTimes(a: Language, w: Word)
    requires w in Star(a)
    ensures exists n: nat :: InTimes(a, w, n)
  {
    var parts: seq<Word> :| AllIn(a, parts) && Flat(parts) == w;
    FlatTimes(a, parts);
  }

  lemma PlusTimes(a: Language, w: Word)
    ensures w in Cat(a, Star(a)) <==> exists n: nat :: n >= 1 && InTimes(a, w, n)
  {
    hide Star;
    if w in Cat(a, Star(a)) {
      var u, v := CatSplit(a, Star(a), w);
      StarTimes(a, v);
      var n: nat :| InTimes(a, v, n);
      assert InTimes(a, w, n + 1);
    }
    if n: nat :| n >= 1 && InTimes(a, w, n) {
      var u: Word, v: Word :| u in a && InTimes(a, v, n - 1) && w == u + v;
      TimesInStar(a, v, n - 1);
      CatHas(a, Star(a), u, v);
    }
  }
}
