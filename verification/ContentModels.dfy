/** Element content models: what the DTD text means, and the binary tree the parser makes of it. */
module ContentModels {
  import opened Languages

  datatype Sep = Sequence | Choice

  /** A content particle as written (productions 47 to 50 of XML 1.0). */
  datatype Particle = Name(name: string, occ: Occur) | Group(sep: Sep, items: seq<Particle>, occ: Occur)

  /** A choice has at least two items, a sequence at least one. */
  predicate WellFormed(p: Particle) {
    match p
    case Name(_, _) => true
    case Group(sep, items, _) =>
      |items| >= (if sep == Choice then 2 else 1) && forall i :: 0 <= i < |items| ==> WellFormed(items[i])
  }

  /** The child sequences a particle matches (section 3.2.1 of XML 1.0). */
  ghost function Lang(p: Particle): Language
    decreases p, 1
  {
    match p
    case Name(n, o) => Rep(o, iset{[n]})
    case Group(sep, items, o) => Rep(o, LangItems(sep, items))
  }

  ghost function LangItems(sep: Sep, items: seq<Particle>): Language
    decreases items, 0
  {
    if items == [] then iset{}
    else if |items| == 1 then Lang(items[0])
    else if sep == Sequence then Cat(Lang(items[0]), LangItems(sep, items[1..]))
    else Lang(items[0]) + LangItems(sep, items[1..])
  }

  // ----- the binary tree -----

  datatype Tree = Leaf(name: string, occ: Occur) | Node(sep: Sep, left: Tree, right: Tree, occ: Occur) {
    function WithOcc(o: Occur): (t: Tree)
      ensures t.occ == o
    {
      this.(occ := o)
    }
  }

  /** The language of a tree without the mark of its root. */
  ghost function Base(t: Tree): Language
    decreases t, 0
  {
    match t
    case Leaf(n, _) => iset{[n]}
    case Node(sep, l, r, _) => if sep == Sequence then Cat(TreeLang(l), TreeLang(r)) else TreeLang(l) + TreeLang(r)
  }

  ghost function TreeLang(t: Tree): Language
    decreases t, 1
  {
    Rep(t.occ, Base(t))
  }

  // ----- what the parser builds -----

  function Height(t: Tree): nat {
    match t
    case Leaf(_, _) => 0
    case Node(_, l, r, _) => 1 + Height(l) + Height(r)
  }

  /** A `?` or `*` on an alternative is dropped. */
  function Unmarked(t: Tree): (r: Tree)
    ensures Height(r) == Height(t)
  {
    if t.occ == Opt || t.occ == Mult then t.WithOcc(Once) else t
  }

  /** The loop down the choice spine that drops the marks of the alternatives. */
  function Stripped(t: Tree): Tree
    decreases Height(t)
  {
    if t.Node? && t.sep == Choice then t.(left := Unmarked(t.left), right := Stripped(Unmarked(t.right))) else t
  }

  /** Whether that loop drops any mark. */
  function Strips(t: Tree): bool
    decreases Height(t)
  {
    t.Node? && t.sep == Choice && (Unmarked(t.left) != t.left || Unmarked(t.right) != t.right || Strips(Unmarked(t.right)))
  }

  /** The loop started at the `d`-th node of the right spine. */
  function StrippedAt(t: Tree, d: nat): Tree {
    if d == 0 || t.Leaf? then Stripped(t) else t.(right := StrippedAt(t.right, d - 1))
  }

  function StripsAt(t: Tree, d: nat): bool {
    if d == 0 || t.Leaf? then Strips(t) else StripsAt(t.right, d - 1)
  }

  /** The suffix after a closing parenthesis; the last operator of the group is the `d`-th of its spine. */
  function Suffixed(t: Tree, suffix: Occur, d: nat): Tree {
    match suffix
    case Once => t
    case Opt => t.WithOcc(FoldMark(t.occ, Opt))
    case Mult => Stripped(t.WithOcc(Mult))
    case Plus => StrippedAt(t, d).WithOcc(if StripsAt(t, d) then Mult else FoldMark(t.occ, Plus))
  }

  function Compile(p: Particle): Tree
    requires WellFormed(p)
    decreases p, 1
  {
    match p
    case Name(n, o) => Leaf(n, o)
    case Group(sep, items, o) => Suffixed(Comb(sep, items), o, LastOp(items))
  }

  /** The items of a group, combined to the right. */
  function Comb(sep: Sep, items: seq<Particle>): Tree
    requires |items| > 0 && forall i :: 0 <= i < |items| ==> WellFormed(items[i])
    decreases items, 0
  {
    if |items| == 1 then Compile(items[0])
    else Node(sep, Compile(items[0]), Comb(sep, items[1..]), Once)
  }

  function LastOp(items: seq<Particle>): nat {
    if |items| < 2 then 0 else |items| - 2
  }

  // ----- dropping marks below a star -----

  lemma RepGrows(o: Occur, a: Language, b: Language)
    requires a <= b
    ensures Rep(o, a) <= Rep(o, b)
  {
    forall w | w in a ensures w in Star(b) {
      StarHas(b, w);
    }
    StarLeast(a, b);
  }

  lemma RepBetween(o: Occur, o': Occur, a: Language, a': Language)
    requires a' <= a <= Star(a')
    requires o' == o || (o' == Once && (o == Opt || o == Mult))
    ensures Rep(o', a') <= Rep(o, a) <= Star(Rep(o', a'))
  {
    StarBetween(a', a);
    StarOfRep(o', a');
    RepInStar(o, a);
    RepGrows(o, a', a);
    RepInStar(o, a');
  }

  /** Replacing an alternative by one with fewer words but the same star. */
  lemma AlternativeBetween(t: Tree, t': Tree)
    requires Base(t') <= Base(t) <= Star(Base(t'))
    requires t'.occ == t.occ || (t'.occ == Once && (t.occ == Opt || t.occ == Mult))
    ensures TreeLang(t') <= TreeLang(t) <= Star(TreeLang(t'))
  {
    RepBetween(t.occ, t'.occ, Base(t), Base(t'));
  }

  lemma UnionBetween(l: Language, r: Language, l': Language, r': Language)
    requires l' <= l <= Star(l') && r' <= r <= Star(r')
    ensures l' + r' <= l + r <= Star(l' + r')
  {
    RepGrows(Mult, l', l' + r');
    RepGrows(Mult, r', l' + r');
  }

  lemma StarReflexive(a: Language)
    ensures a <= Star(a)
  {
    RepInStar(Mult, a);
  }

  /** Dropping `?` and `*` down a choice spine loses no word that a star around the choice would not give back. */
  lemma {:induction false} StrippedBetween(t: Tree)
    ensures Stripped(t).occ == t.occ
    ensures Base(Stripped(t)) <= Base(t) <= Star(Base(Stripped(t)))
    decreases Height(t)
  {
    if t.Node? && t.sep == Choice {
      var l, r := Unmarked(t.left), Stripped(Unmarked(t.right));
      StrippedBetween(Unmarked(t.right));
      assert Base(Unmarked(t.right)) == Base(t.right);
      assert Base(l) == Base(t.left);
      StarReflexive(Base(l));
      AlternativeBetween(t.left, l);
      AlternativeBetween(t.right, r);
      UnionBetween(TreeLang(t.left), TreeLang(t.right), TreeLang(l), TreeLang(r));
    } else {
      StarReflexive(Base(t));
    }
  }

  /** If a mark is dropped, some alternative matched the empty word. */
  lemma {:induction false} StripsEmpty(t: Tree)
    requires Strips(t)
    ensures [] in Base(t)
    decreases Height(t)
  {
    StarHas(Base(t.left), []);
    StarHas(Base(t.right), []);
    if Unmarked(t.left) == t.left && Unmarked(t.right) == t.right {
      StripsEmpty(t.right);
      RepInStar(t.right.occ, Base(t.right));
    }
  }

  lemma {:induction false} StripsNothing(t: Tree)
    requires !Strips(t)
    ensures Stripped(t) == t
  {
    if t.Node? && t.sep == Choice {
      StripsNothing(t.right);
    }
  }

  /** The right spine of `t` down to its `d`-th operator: `sep` nodes, unmarked below the root. */
  ghost predicate Spine(t: Tree, sep: Sep, d: nat) {
    t.Node? && t.sep == sep && (d == 0 || (t.right.occ == Once && Spine(t.right, sep, d - 1)))
  }

  lemma {:induction false} StrippedAtBetween(t: Tree, d: nat)
    requires d == 0 || Spine(t, Choice, d)
    ensures StrippedAt(t, d).occ == t.occ
    ensures Base(StrippedAt(t, d)) <= Base(t) <= Star(Base(StrippedAt(t, d)))
    ensures StripsAt(t, d) ==> [] in Base(t)
    ensures !StripsAt(t, d) ==> StrippedAt(t, d) == t
  {
    if d == 0 {
      StrippedBetween(t);
      if Strips(t) {
        StripsEmpty(t);
      } else {
        StripsNothing(t);
      }
    } else {
      StrippedAtBetween(t.right, d - 1);
      var r := StrippedAt(t.right, d - 1);
      StarReflexive(TreeLang(t.left));
      AlternativeBetween(t.right, r);
      UnionBetween(TreeLang(t.left), TreeLang(t.right), TreeLang(t.left), TreeLang(r));
    }
  }

  lemma {:induction false} SequenceUnstripped(t: Tree, d: nat)
    requires Spine(t, Sequence, d)
    ensures StrippedAt(t, d) == t && !StripsAt(t, d)
  {
    if d > 0 {
      SequenceUnstripped(t.right, d - 1);
    }
  }

  // ----- suffixes -----

  /** The shape of a group body: one item, or operators of one kind with an unmarked root. */
  ghost predicate Body(t: Tree, d: nat) {
    d == 0 || ((Spine(t, Choice, d) || Spine(t, Sequence, d)) && t.occ == Once)
  }

  lemma AtOrUntouched(t: Tree, d: nat)
    requires Body(t, d)
    ensures StrippedAt(t, d).occ == t.occ
    ensures Star(Base(StrippedAt(t, d))) == Star(Base(t))
    ensures StripsAt(t, d) ==> [] in Base(t)
    ensures !StripsAt(t, d) ==> StrippedAt(t, d) == t
  {
    if d > 0 && Spine(t, Sequence, d) {
      SequenceUnstripped(t, d);
    } else {
      StrippedAtBetween(t, d);
      StarBetween(Base(StrippedAt(t, d)), Base(t));
    }
  }

  lemma StarSuffix(t: Tree)
    ensures TreeLang(Suffixed(t, Mult, 0)) == Rep(Mult, TreeLang(t))
  {
    var m := t.WithOcc(Mult);
    assert Base(m) == Base(t);
    StrippedBetween(m);
    StarBetween(Base(Stripped(m)), Base(m));
    StarOfRep(t.occ, Base(t));
  }

  lemma PlusSuffix(t: Tree, d: nat)
    requires Body(t, d)
    ensures TreeLang(Suffixed(t, Plus, d)) == Rep(Plus, TreeLang(t)) <==> !(t.occ == Mult && [] !in Base(t))
  {
    AtOrUntouched(t, d);
    var s := Suffixed(t, Plus, d);
    assert Base(s) == Base(StrippedAt(t, d));
    if StripsAt(t, d) {
      StarOfRep(t.occ, Base(t));
      RepInStar(t.occ, Base(t));
      PlusIsStar(TreeLang(t));
    } else {
      FoldMarkExact(t.occ, Plus, Base(t));
    }
  }

  /**
   * What one suffix does: it gives the language it should unless `?` or `+` falls on a body that carries `*`
   * already, and there it does so exactly when the body (with the empty word) is closed under concatenation,
   * respectively matches the empty word.
   */
  lemma SuffixExact(t: Tree, suffix: Occur, d: nat)
    requires Body(t, d)
    ensures TreeLang(Suffixed(t, suffix, d)) == Rep(suffix, TreeLang(t)) <==>
      !(t.occ == Mult && suffix == Opt && !ClosedUnderCat(Base(t) + iset{[]})) &&
      !(t.occ == Mult && suffix == Plus && [] !in Base(t))
  {
    match suffix {
      case Once =>
      case Opt =>
        assert Base(Suffixed(t, Opt, d)) == Base(t);
        FoldMarkExact(t.occ, Opt, Base(t));
      case Mult => StarSuffix(t);
      case Plus => PlusSuffix(t, d);
    }
  }

  // ----- whole models -----

  /** No `?` or `+` falls on a one-item group whose item carries `*` already. */
  predicate NoStarResuffixed(p: Particle)
    requires WellFormed(p)
    decreases p
  {
    match p
    case Name(_, _) => true
    case Group(_, items, o) =>
      && (forall i :: 0 <= i < |items| ==> NoStarResuffixed(items[i]))
      && (|items| == 1 && (o == Opt || o == Plus) ==> Compile(items[0]).occ != Mult)
  }

  lemma {:induction false} CombSpine(sep: Sep, items: seq<Particle>)
    requires |items| > 1 && forall i :: 0 <= i < |items| ==> WellFormed(items[i])
    ensures Comb(sep, items).occ == Once && Spine(Comb(sep, items), sep, LastOp(items))
  {
    if |items| > 2 {
      CombSpine(sep, items[1..]);
    }
  }

  lemma CombBody(sep: Sep, items: seq<Particle>)
    requires |items| > 0 && forall i :: 0 <= i < |items| ==> WellFormed(items[i])
    ensures Body(Comb(sep, items), LastOp(items))
    ensures |items| > 1 ==> Comb(sep, items).occ == Once
  {
    if |items| > 1 {
      CombSpine(sep, items);
    }
  }

  /**
   * The tree built for a content model denotes the language of the model, whatever its nesting, as long as
   * no `?` or `+` falls on a one-item group whose item carries `*` already.
   */
  lemma {:induction false} CompileCorrect(p: Particle)
    requires WellFormed(p) && NoStarResuffixed(p)
    ensures TreeLang(Compile(p)) == Lang(p)
    decreases p, 1
  {
    match p
    case Name(n, o) =>
    case Group(sep, items, o) =>
      var t := Comb(sep, items);
      CombCorrect(sep, items);
      CombBody(sep, items);
      SuffixExact(t, o, LastOp(items));
  }

  lemma {:induction false} CombCorrect(sep: Sep, items: seq<Particle>)
    requires |items| > 0
    requires forall i :: 0 <= i < |items| ==> WellFormed(items[i]) && NoStarResuffixed(items[i])
    ensures TreeLang(Comb(sep, items)) == LangItems(sep, items)
    decreases items, 0
  {
    CompileCorrect(items[0]);
    if |items| > 1 {
      CombCorrect(sep, items[1..]);
    }
  }

  /** A suffix never lets in what it should not. */
  lemma SuffixWithin(t: Tree, suffix: Occur, d: nat)
    requires Body(t, d)
    ensures TreeLang(Suffixed(t, suffix, d)) <= Rep(suffix, TreeLang(t))
  {
    SuffixExact(t, suffix, d);
    RepInStar(Mult, Base(t));
    if t.occ == Mult && suffix == Opt {
      assert Base(Suffixed(t, Opt, d)) == Base(t);
    } else if t.occ == Mult && suffix == Plus && [] !in Base(t) {
      AtOrUntouched(t, d);
      assert Base(Suffixed(t, Plus, d)) == Base(t);
      RepGrows(Plus, Base(t), Star(Base(t)));
    }
  }

  /** Whatever the model, the tree built for it matches only what the model does: the defect rejects, and never accepts. */
  lemma {:induction false} CompileWithin(p: Particle)
    requires WellFormed(p)
    ensures TreeLang(Compile(p)) <= Lang(p)
    decreases p, 1
  {
    match p
    case Name(n, o) =>
    case Group(sep, items, o) =>
      var t := Comb(sep, items);
      CombWithin(sep, items);
      CombBody(sep, items);
      SuffixWithin(t, o, LastOp(items));
      RepGrows(o, TreeLang(t), LangItems(sep, items));
  }

  lemma {:induction false} CombWithin(sep: Sep, items: seq<Particle>)
    requires |items| > 0 && forall i :: 0 <= i < |items| ==> WellFormed(items[i])
    ensures TreeLang(Comb(sep, items)) <= LangItems(sep, items)
    decreases items, 0
  {
    CompileWithin(items[0]);
    if |items| > 1 {
      CombWithin(sep, items[1..]);
      CatGrows(TreeLang(Compile(items[0])), TreeLang(Comb(sep, items[1..])), Lang(items[0]), LangItems(sep, items[1..]));
    }
  }

  /** For a group around one item, the exact condition. */
  lemma OneItemGroupExact(item: Particle, o: Occur)
    requires WellFormed(item) && NoStarResuffixed(item)
    ensures var p, t := Group(Sequence, [item], o), Compile(item);
      TreeLang(Compile(p)) == Lang(p) <==>
        !(t.occ == Mult && o == Opt && !ClosedUnderCat(Base(t) + iset{[]})) &&
        !(t.occ == Mult && o == Plus && !Nullable(t.WithOcc(Once)))
  {
    var t := Compile(item);
    CompileCorrect(item);
    assert Comb(Sequence, [item]) == t;
    SuffixExact(t, o, 0);
    NullableExact(t.WithOcc(Once));
  }

  /** Whether a tree matches the empty word, read off its marks. */
  function Nullable(t: Tree): bool {
    t.occ == Opt || t.occ == Mult ||
    (t.Node? && if t.sep == Sequence then Nullable(t.left) && Nullable(t.right) else Nullable(t.left) || Nullable(t.right))
  }

  lemma {:induction false} NullableExact(t: Tree)
    ensures Nullable(t) <==> [] in TreeLang(t)
  {
    StarHas(Base(t), []);
    EmptyInPlus(Base(t));
    if t.Node? {
      NullableExact(t.left);
      NullableExact(t.right);
      if t.sep == Sequence {
        EmptyInCat(TreeLang(t.left), TreeLang(t.right));
      }
    }
  }

  lemma EmptyInCat(a: Language, b: Language)
    ensures [] in Cat(a, b) <==> [] in a && [] in b
  {
    if [] in Cat(a, b) {
      var u, v := CatSplit(a, b, []);
      assert u == [] && v == [];
    }
    if [] in a && [] in b {
      CatHas(a, b, [], []);
      var e: Word := [];
      assert e + e == e;
    }
  }

  /** The failing family, `(n*)?`: the tree is that of `n?`, which does not match two `n`. */
  lemma OptionalStarBreaks(n: string)
    ensures var p := Group(Sequence, [Name(n, Mult)], Opt);
      WellFormed(p) && Compile(p) == Leaf(n, Opt) && [n, n] in Lang(p) && [n, n] !in TreeLang(Compile(p))
  {
    var p := Group(Sequence, [Name(n, Mult)], Opt);
    var a: Language := iset{[n]};
    assert Comb(Sequence, p.items) == Leaf(n, Mult);
    StarHas(a, [n]);
    StarCat(a, [n], [n]);
    assert [n] + [n] == [n, n];
    assert LangItems(Sequence, p.items) == Lang(p.items[0]) == Star(a);
    assert [n, n] != [n] by { assert |[n, n]| != |[n]|; }
  }

  /** And `(n*)+`: the tree is that of `n+`, which does not match the empty content. */
  lemma PositiveStarBreaks(n: string)
    ensures var p := Group(Sequence, [Name(n, Mult)], Plus);
      WellFormed(p) && Compile(p) == Leaf(n, Plus) && [] in Lang(p) && [] !in TreeLang(Compile(p))
  {
    var p := Group(Sequence, [Name(n, Mult)], Plus);
    var a: Language := iset{[n]};
    assert Comb(Sequence, p.items) == Leaf(n, Mult);
    assert LangItems(Sequence, p.items) == Lang(p.items[0]) == Star(a);
    StarHas(a, []);
    EmptyInPlus(a);
    EmptyInPlus(Star(a));
  }

  // ----- what a group matches -----

  /** One word for each item, in their order. */
  ghost predicate InOrder(items: seq<Particle>, parts: seq<Word>) {
    |parts| == |items| && forall i :: 0 <= i < |items| ==> parts[i] in Lang(items[i])
  }

  /** A sequence matches its items one behind the other, a choice any one of them. */
  lemma {:induction false} GroupExactly(sep: Sep, items: seq<Particle>, w: Word)
    requires items != []
    ensures w in Lang(Group(sep, items, Once)) <==>
      if sep == Sequence then exists parts: seq<Word> :: InOrder(items, parts) && Flat(parts) == w
      else exists i :: 0 <= i < |items| && w in Lang(items[i])
    decreases |items|
  {
    assert w in Lang(Group(sep, items, Once)) <==> w in LangItems(sep, items);
    if |items| == 1 {
      OneItem(items, w);
    } else {
      var rest := items[1..];
      if sep == Sequence {
        if w in LangItems(sep, items) {
          var u, v := CatSplit(Lang(items[0]), LangItems(sep, rest), w);
          assert v in Lang(Group(sep, rest, Once));
          GroupExactly(sep, rest, v);
          var tail :| InOrder(rest, tail) && Flat(tail) == v;
          assert ([u] + tail)[1..] == tail;
          assert InOrder(items, [u] + tail) && Flat([u] + tail) == w;
        }
        if parts: seq<Word> :| InOrder(items, parts) && Flat(parts) == w {
          assert InOrder(rest, parts[1..]);
          GroupExactly(sep, rest, Flat(parts[1..]));
          assert Flat(parts[1..]) in Lang(Group(sep, rest, Once));
          CatHas(Lang(items[0]), LangItems(sep, rest), parts[0], Flat(parts[1..]));
        }
      } else {
        GroupExactly(sep, rest, w);
        assert w in Lang(Group(sep, rest, Once)) <==> w in LangItems(sep, rest);
        assert forall i :: 0 <= i < |rest| ==> rest[i] == items[i + 1];
      }
    }
  }

  lemma OneItem(items: seq<Particle>, w: Word)
    requires |items| == 1
    ensures (exists parts: seq<Word> :: InOrder(items, parts) && Flat(parts) == w) <==> w in Lang(items[0])
    ensures (exists i :: 0 <= i < |items| && w in Lang(items[i])) <==> w in Lang(items[0])
  {
    if w in Lang(items[0]) {
      assert InOrder(items, [w]) && [w][1..] == [] && Flat([w]) == w;
    }
    if parts: seq<Word> :| InOrder(items, parts) && Flat(parts) == w {
      assert parts[1..] == [] && Flat(parts) == parts[0];
    }
  }

  /** `(a,b)` matches an `a` and a `b` behind it, `(a|b)` one of the two. */
  lemma TwoNames(a: string, b: string)
    ensures Lang(Group(Sequence, [Name(a, Once), Name(b, Once)], Once)) == iset{[a, b]}
    ensures Lang(Group(Choice, [Name(a, Once), Name(b, Once)], Once)) == iset{[a], [b]}
  {
    var items := [Name(a, Once), Name(b, Once)];
    assert items[1..] == [Name(b, Once)];
    forall sep: Sep ensures Lang(Group(sep, items, Once)) == LangItems(sep, items) && LangItems(sep, items[1..]) == iset{[b]} {
      assert LangItems(sep, items[1..]) == Lang(Name(b, Once));
    }
    assert Lang(items[0]) == iset{[a]};
    assert [a] + [b] == [a, b];
    CatHas(iset{[a]}, iset{[b]}, [a], [b]);
    forall w | w in Cat(iset{[a]}, iset{[b]}) ensures w == [a, b] {
      var u, v := CatSplit(iset{[a]}, iset{[b]}, w);
    }
    assert LangItems(Sequence, items) == Cat(iset{[a]}, iset{[b]});
    assert LangItems(Choice, items) == iset{[a]} + iset{[b]};
  }
}
