/** The text of a children content model, and the deterministic reading of it. */
module ContentModelText {
  import opened Languages
  import opened ContentModels

  /** The input, with names, white space and everything else told apart. */
  datatype Token = Open | Close | Comma | Bar | Quest | Star | Cross | Word(name: string) | Blank | Other

  // ----- spelling -----

  /** A particle together with the white space before and after it, and within. */
  datatype Spelling =
    | NameSp(before: nat, name: string, occ: Occur, after: nat)
    | GroupSp(before: nat, sep: Sep, items: seq<Spelling>, occ: Occur, after: nat)

  function Meaning(sp: Spelling): Particle
    decreases sp
  {
    match sp
    case NameSp(_, n, o, _) => Name(n, o)
    case GroupSp(_, sep, items, o, _) => Group(sep, Meanings(items), o)
  }

  function Meanings(items: seq<Spelling>): (r: seq<Particle>)
    ensures |r| == |items|
    decreases items
  {
    if items == [] then [] else [Meaning(items[0])] + Meanings(items[1..])
  }

  function Spaces(n: nat): seq<Token> {
    if n == 0 then [] else [Blank] + Spaces(n - 1)
  }

  function MarkText(o: Occur): seq<Token> {
    match o
    case Once => []
    case Opt => [Quest]
    case Mult => [Star]
    case Plus => [Cross]
  }

  function SepToken(sep: Sep): Token {
    if sep == Sequence then Comma else Bar
  }

  /** Productions 47 to 50: `'(' S? cp (S? sep S? cp)* S? ')'` and an occurrence mark right behind. */
  function Spell(sp: Spelling): seq<Token>
    decreases sp, 1
  {
    match sp
    case NameSp(_, n, o, _) => [Word(n)] + MarkText(o)
    case GroupSp(_, sep, items, o, _) => [Open] + SpellItems(sep, items) + [Close] + MarkText(o)
  }

  function Padded(sp: Spelling): seq<Token>
    decreases sp, 2
  {
    Spaces(sp.before) + Spell(sp) + Spaces(sp.after)
  }

  function SpellItems(sep: Sep, items: seq<Spelling>): seq<Token>
    decreases items, 0
  {
    if items == [] then []
    else
      if |items| == 1 then Padded(items[0]) else Padded(items[0]) + [SepToken(sep)] + SpellItems(sep, items[1..])
  }

  /** How many levels of groups stand inside the outermost one. */
  function Nesting(p: Particle): nat
    decreases p, 1
  {
    match p
    case Name(_, _) => 0
    case Group(_, items, _) => InnerNesting(items)
  }

  function InnerNesting(items: seq<Particle>): nat
    decreases items, 0
  {
    if items == [] then 0
    else
      var here := if items[0].Group? then 1 + Nesting(items[0]) else 0;
      var rest := InnerNesting(items[1..]);
      if here > rest then here else rest
  }

  // ----- reading -----

  datatype Reading = Failed | Read(value: Particle, rest: seq<Token>)

  function SkipBlanks(s: seq<Token>): (r: seq<Token>)
    ensures |r| <= |s| && (r != [] ==> r[0] != Blank)
  {
    if s != [] && s[0] == Blank then SkipBlanks(s[1..]) else s
  }

  predicate StartsWithMark(s: seq<Token>) {
    s != [] && (s[0] == Quest || s[0] == Star || s[0] == Cross)
  }

  function MarkOf(s: seq<Token>): Occur {
    if s == [] then Once
    else match s[0]
      case Quest => Opt
      case Star => Mult
      case Cross => Plus
      case _ => Once
  }

  function AfterMark(s: seq<Token>): (r: seq<Token>)
    ensures |r| <= |s|
  {
    if StartsWithMark(s) then s[1..] else s
  }

  predicate TooDeep(depth: nat, maxDepth: nat) {
    maxDepth > 0 && depth > maxDepth
  }

  /** A name or nested group, with its mark. */
  function ReadItem(s: seq<Token>, depth: nat, maxDepth: nat): (r: Reading)
    ensures r.Read? ==> |r.rest| < |s|
    decreases |s|, 0
  {
    if s == [] then Failed
    else if s[0] == Open then ReadGroup(SkipBlanks(s[1..]), depth + 1, maxDepth)
    else if s[0].Word? then Read(Name(s[0].name, MarkOf(s[1..])), AfterMark(s[1..]))
    else Failed
  }

  /** What follows an opening parenthesis, up to the mark behind the closing one. */
  function ReadGroup(s: seq<Token>, depth: nat, maxDepth: nat): (r: Reading)
    ensures r.Read? ==> |r.rest| < |s|
    decreases |s|, 1
  {
    if TooDeep(depth, maxDepth) then Failed
    else
      var first := ReadItem(SkipBlanks(s), depth, maxDepth);
      if first.Failed? then Failed
      else ReadTail(SkipBlanks(first.rest), Sequence, [first.value], depth, maxDepth)
  }

  /** The rest of a group; the separator is fixed once there are two items. */
  function ReadTail(s: seq<Token>, sep: Sep, items: seq<Particle>, depth: nat, maxDepth: nat): (r: Reading)
    requires |items| > 0
    ensures r.Read? ==> |r.rest| < |s|
    decreases |s|, 2
  {
    if s == [] then Failed
    else if s[0] == Close then Read(Group(sep, items, MarkOf(s[1..])), AfterMark(s[1..]))
    else if s[0] == Comma || s[0] == Bar then
      var here := if s[0] == Comma then Sequence else Choice;
      if |items| > 1 && here != sep then Failed
      else
        var next := ReadItem(SkipBlanks(s[1..]), depth, maxDepth);
        if next.Failed? then Failed
        else ReadTail(SkipBlanks(next.rest), here, items + [next.value], depth, maxDepth)
    else Failed
  }

  // ----- every spelling is read -----

  lemma {:induction false} SkipSpaces(n: nat, s: seq<Token>)
    ensures SkipBlanks(Spaces(n) + s) == SkipBlanks(s)
  {
    if n == 0 {
      assert Spaces(0) + s == s;
    } else {
      assert (Spaces(n) + s)[1..] == Spaces(n - 1) + s;
      SkipSpaces(n - 1, s);
    }
  }

  lemma SkipNothing(s: seq<Token>)
    requires s == [] || s[0] != Blank
    ensures SkipBlanks(s) == s
  {
  }

  lemma MarkRead(o: Occur, rest: seq<Token>)
    requires o == Once ==> !StartsWithMark(rest)
    ensures MarkOf(MarkText(o) + rest) == o && AfterMark(MarkText(o) + rest) == rest
  {
    if o == Once {
      assert MarkText(o) + rest == rest;
    } else {
      assert (MarkText(o) + rest)[1..] == rest;
    }
  }

  lemma SpellStart(sp: Spelling)
    ensures Spell(sp) != [] && (Spell(sp)[0] == Open || Spell(sp)[0].Word?)
  {
  }

  /** What follows an item inside a group never begins with a mark. */
  lemma AfterItem(n: nat, s: seq<Token>)
    requires s != [] && (s[0] == Close || s[0] == Comma || s[0] == Bar)
    ensures !StartsWithMark(Spaces(n) + s)
  {
    if n == 0 {
      assert Spaces(n) + s == s;
    }
  }

  lemma {:induction false} ItemRead(sp: Spelling, rest: seq<Token>, depth: nat, maxDepth: nat)
    requires WellFormed(Meaning(sp))
    requires sp.GroupSp? && maxDepth > 0 ==> depth + 1 + Nesting(Meaning(sp)) <= maxDepth
    requires sp.occ == Once ==> !StartsWithMark(rest)
    ensures ReadItem(Spell(sp) + rest, depth, maxDepth) == Read(Meaning(sp), rest)
    decreases sp, 2
  {
    match sp
    case NameSp(_, n, o, _) =>
      var s := Spell(sp) + rest;
      assert s[1..] == MarkText(o) + rest;
      MarkRead(o, rest);
    case GroupSp(_, sep, items, o, _) =>
      var inner := SpellItems(sep, items) + [Close] + MarkText(o) + rest;
      assert (Spell(sp) + rest)[1..] == inner;
      GroupRead(sep, items, o, rest, depth + 1, maxDepth);
      SkipTwice(inner);
      assert ReadGroup(SkipBlanks(inner), depth + 1, maxDepth) == ReadGroup(inner, depth + 1, maxDepth);
  }

  lemma SkipTwice(s: seq<Token>)
    ensures SkipBlanks(SkipBlanks(s)) == SkipBlanks(s)
  {
    SkipNothing(SkipBlanks(s));
  }

  /** An item with white space around it, before a closing parenthesis or a separator. */
  lemma {:induction false} PaddedRead(it: Spelling, tail: seq<Token>, depth: nat, maxDepth: nat)
    requires WellFormed(Meaning(it))
    requires it.GroupSp? && maxDepth > 0 ==> depth + 1 + Nesting(Meaning(it)) <= maxDepth
    requires tail != [] && (tail[0] == Close || tail[0] == Comma || tail[0] == Bar)
    ensures ReadItem(SkipBlanks(Padded(it) + tail), depth, maxDepth) == Read(Meaning(it), Spaces(it.after) + tail)
    ensures SkipBlanks(Spaces(it.after) + tail) == tail
    decreases it, 3
  {
    var inner := Spell(it) + (Spaces(it.after) + tail);
    assert Padded(it) + tail == Spaces(it.before) + inner;
    AfterItem(it.after, tail);
    ItemRead(it, Spaces(it.after) + tail, depth, maxDepth);
    SpellStart(it);
    SkipSpaces(it.before, inner);
    SkipNothing(inner);
    SkipSpaces(it.after, tail);
    SkipNothing(tail);
  }

  lemma {:induction false} GroupRead(sep: Sep, items: seq<Spelling>, o: Occur, rest: seq<Token>, depth: nat, maxDepth: nat)
    requires WellFormed(Group(sep, Meanings(items), o))
    requires maxDepth > 0 ==> depth + InnerNesting(Meanings(items)) <= maxDepth
    requires o == Once ==> !StartsWithMark(rest)
    ensures ReadGroup(SpellItems(sep, items) + [Close] + MarkText(o) + rest, depth, maxDepth)
      == Read(Group(sep, Meanings(items), o), rest)
    decreases items, 1
  {
    var tail := ItemTail(sep, items, o, rest);
    FirstItem(sep, items, o, rest);
    assert Meanings(items)[0] == Meaning(items[0]);
    PaddedRead(items[0], tail, depth, maxDepth);
    forall i | 0 <= i < |items| ensures WellFormed(Meaning(items[i])) {
      MeaningsAt(items, i);
    }
    TailRead(sep, items, [Meaning(items[0])], Sequence, o, rest, depth, maxDepth);
    assert [Meaning(items[0])] + Meanings(items[1..]) == Meanings(items);
  }

  /** What stands behind the first item and its white space. */
  function ItemTail(sep: Sep, items: seq<Spelling>, o: Occur, rest: seq<Token>): (r: seq<Token>)
    requires items != []
    ensures r != [] && (r[0] == Close || r[0] == Comma || r[0] == Bar)
  {
    if |items| == 1 then [Close] + MarkText(o) + rest
    else [SepToken(sep)] + (SpellItems(sep, items[1..]) + [Close] + MarkText(o) + rest)
  }

  lemma FirstItem(sep: Sep, items: seq<Spelling>, o: Occur, rest: seq<Token>)
    requires items != []
    ensures SpellItems(sep, items) + [Close] + MarkText(o) + rest == Padded(items[0]) + ItemTail(sep, items, o, rest)
  {
    if |items| == 1 {
      Regroup(Padded(items[0]), [], [], [Close], MarkText(o), rest);
    } else {
      Regroup(Padded(items[0]), [SepToken(sep)], SpellItems(sep, items[1..]), [Close], MarkText(o), rest);
    }
  }

  lemma Regroup(a: seq<Token>, b: seq<Token>, c: seq<Token>, d: seq<Token>, e: seq<Token>, f: seq<Token>)
    ensures a + b + c + d + e + f == a + (b + (c + d + e + f))
    ensures a + d + e + f == a + (d + e + f)
  {
  }

  /** Reading goes on behind the first of `items`, the items before and including it being `done`. */
  lemma {:induction false} TailRead(
    sep: Sep, items: seq<Spelling>, done: seq<Particle>, sofar: Sep, o: Occur, rest: seq<Token>, depth: nat, maxDepth: nat)
    requires items != [] && done != [] && (forall i :: 0 <= i < |items| ==> WellFormed(Meaning(items[i])))
    requires |done| == 1 || sofar == sep
    requires |items| == 1 && |done| == 1 ==> sofar == Sequence && sep == Sequence
    requires maxDepth > 0 ==> depth + InnerNesting(Meanings(items)) <= maxDepth
    requires o == Once ==> !StartsWithMark(rest)
    ensures ReadTail(ItemTail(sep, items, o, rest), sofar, done, depth, maxDepth)
      == Read(Group(sep, done + Meanings(items[1..]), o), rest)
    decreases items, 0
  {
    if |items| == 1 {
      TailEnd(sofar, done, o, rest, depth, maxDepth);
      assert done + [] == done;
    } else {
      var more := items[1..];
      MoreMeanings(items);
      TailStep(sep, more, done, sofar, o, rest, depth, maxDepth);
      TailRead(sep, more, done + [Meaning(more[0])], sep, o, rest, depth, maxDepth);
      DoneMore(done, more);
    }
  }

  lemma DoneMore(done: seq<Particle>, more: seq<Spelling>)
    requires more != []
    ensures done + [Meaning(more[0])] + Meanings(more[1..]) == done + Meanings(more)
  {
    Push(done, Meaning(more[0]), Meanings(more[1..]));
  }

  lemma Push(a: seq<Particle>, x: Particle, b: seq<Particle>)
    ensures a + [x] + b == a + ([x] + b)
  {
  }

  lemma TailEnd(sep: Sep, done: seq<Particle>, o: Occur, rest: seq<Token>, depth: nat, maxDepth: nat)
    requires done != [] && (o == Once ==> !StartsWithMark(rest))
    ensures ReadTail([Close] + MarkText(o) + rest, sep, done, depth, maxDepth) == Read(Group(sep, done, o), rest)
  {
    var s := [Close] + MarkText(o) + rest;
    assert s[1..] == MarkText(o) + rest;
    MarkRead(o, rest);
  }

  lemma {:induction false} MeaningsAt(items: seq<Spelling>, i: nat)
    requires i < |items|
    ensures Meanings(items)[i] == Meaning(items[i])
  {
    if i > 0 {
      MeaningsAt(items[1..], i - 1);
    }
  }

  lemma MoreMeanings(items: seq<Spelling>)
    requires |items| > 1
    ensures Meanings(items)[1..] == Meanings(items[1..])
    ensures Meanings(items[1..]) == [Meaning(items[1])] + Meanings(items[1..][1..])
    ensures InnerNesting(Meanings(items[1..])) <= InnerNesting(Meanings(items))
  {
  }

  /** One separator and the item behind it. */
  lemma {:induction false} TailStep(
    sep: Sep, more: seq<Spelling>, done: seq<Particle>, sofar: Sep, o: Occur, rest: seq<Token>, depth: nat, maxDepth: nat)
    requires more != [] && done != [] && WellFormed(Meaning(more[0])) && (|done| == 1 || sofar == sep)
    requires maxDepth > 0 ==> depth + InnerNesting(Meanings(more)) <= maxDepth
    ensures ReadTail([SepToken(sep)] + (SpellItems(sep, more) + [Close] + MarkText(o) + rest), sofar, done, depth, maxDepth)
      == ReadTail(ItemTail(sep, more, o, rest), sep, done + [Meaning(more[0])], depth, maxDepth)
    decreases more, 0
  {
    var tail := ItemTail(sep, more, o, rest);
    FirstItem(sep, more, o, rest);
    PaddedRead(more[0], tail, depth, maxDepth);
    SeparatorRead(sep, Padded(more[0]) + tail, done, sofar, depth, maxDepth);
  }

  lemma SeparatorRead(sep: Sep, s: seq<Token>, done: seq<Particle>, sofar: Sep, depth: nat, maxDepth: nat)
    requires done != [] && (|done| == 1 || sofar == sep) && ReadItem(SkipBlanks(s), depth, maxDepth).Read?
    ensures var next := ReadItem(SkipBlanks(s), depth, maxDepth);
      ReadTail([SepToken(sep)] + s, sofar, done, depth, maxDepth)
      == ReadTail(SkipBlanks(next.rest), sep, done + [next.value], depth, maxDepth)
  {
    assert ([SepToken(sep)] + s)[1..] == s;
  }

  // ----- whatever is read is a spelling -----

  lemma {:induction false} SkippedSpaces(s: seq<Token>) returns (n: nat)
    ensures s == Spaces(n) + SkipBlanks(s)
  {
    if s != [] && s[0] == Blank {
      var m := SkippedSpaces(s[1..]);
      n := m + 1;
      assert s == [Blank] + s[1..];
      assert Spaces(n) == [Blank] + Spaces(m);
    } else {
      n := 0;
    }
  }

  lemma MarkSpelled(s: seq<Token>)
    ensures s == MarkText(MarkOf(s)) + AfterMark(s)
    ensures MarkOf(s) == Once ==> !StartsWithMark(AfterMark(s))
  {
    if StartsWithMark(s) {
      assert s == [s[0]] + s[1..];
    }
  }

  ghost predicate Fits(p: Particle, depth: nat, maxDepth: nat) {
    p.Group? && maxDepth > 0 ==> depth + 1 + Nesting(p) <= maxDepth
  }

  lemma {:induction false} ItemSpelled(s: seq<Token>, depth: nat, maxDepth: nat, before: nat, after: nat) returns (sp: Spelling)
    requires ReadItem(s, depth, maxDepth).Read?
    ensures var r := ReadItem(s, depth, maxDepth);
      && Meaning(sp) == r.value && WellFormed(r.value) && Fits(r.value, depth, maxDepth)
      && s == Spell(sp) + r.rest && (sp.occ == Once ==> !StartsWithMark(r.rest))
    ensures sp.before == before && sp.after == after
    decreases |s|, 0
  {
    MarkSpelled(s[1..]);
    if s[0] == Open {
      var skipped := SkipBlanks(s[1..]);
      var sep, items, o := GroupSpelled(skipped, depth + 1, maxDepth);
      var n := SkippedSpaces(s[1..]);
      sp := PadFirst(sep, items, o, ReadItem(s, depth, maxDepth).rest, n, before, after);
      assert s == [Open] + s[1..];
    } else {
      sp := NameSp(before, s[0].name, MarkOf(s[1..]), after);
      assert s == [s[0]] + s[1..];
    }
  }

  /** White space skipped behind the parenthesis belongs to the first item. */
  lemma PadFirst(sep: Sep, items: seq<Spelling>, o: Occur, rest: seq<Token>, n: nat, before: nat, after: nat)
    returns (sp: Spelling)
    requires items != []
    ensures sp.GroupSp? && sp.sep == sep && sp.occ == o && sp.before == before && sp.after == after
    ensures Meanings(sp.items) == Meanings(items)
    ensures [Open] + (Spaces(n) + (SpellItems(sep, items) + [Close] + MarkText(o) + rest)) == Spell(sp) + rest
  {
    var it := items[0].(before := items[0].before + n);
    var items' := [it] + items[1..];
    PadItems(sep, items, n);
    assert Meaning(it) == Meaning(items[0]);
    assert items'[1..] == items[1..];
    sp := GroupSp(before, sep, items', o, after);
    PadGroup(Spaces(n), SpellItems(sep, items), MarkText(o), rest);
  }

  lemma PadItems(sep: Sep, items: seq<Spelling>, n: nat)
    requires items != []
    ensures SpellItems(sep, [items[0].(before := items[0].before + n)] + items[1..]) == Spaces(n) + SpellItems(sep, items)
  {
    var it := items[0].(before := items[0].before + n);
    var items' := [it] + items[1..];
    PadItem(items[0], n);
    assert items'[1..] == items[1..];
    if |items| > 1 {
      PadGroup(Spaces(n), Padded(items[0]), [SepToken(sep)], SpellItems(sep, items[1..]));
    }
  }

  lemma PadItem(it: Spelling, n: nat)
    ensures Padded(it.(before := it.before + n)) == Spaces(n) + Padded(it)
  {
    SpacesAdd(n, it.before);
    assert Spell(it.(before := it.before + n)) == Spell(it);
  }

  lemma PadGroup(a: seq<Token>, b: seq<Token>, c: seq<Token>, d: seq<Token>)
    ensures (a + b) + c + d == a + (b + c + d)
    ensures [Open] + (a + (b + [Close] + c + d)) == [Open] + (a + b) + [Close] + c + d
  {
  }

  /** White space, an item and white space, put together. */
  lemma PaddedText(it: Spelling, s: seq<Token>, r: seq<Token>, t: seq<Token>)
    requires s == Spaces(it.before) + (Spell(it) + r) && r == Spaces(it.after) + t
    ensures s == Padded(it) + t
  {
  }

  lemma {:induction false} SpacesAdd(m: nat, n: nat)
    ensures Spaces(n + m) == Spaces(m) + Spaces(n)
  {
    if m > 0 {
      SpacesAdd(m - 1, n);
    }
  }

  lemma {:induction false} GroupSpelled(s: seq<Token>, depth: nat, maxDepth: nat)
    returns (sep: Sep, items: seq<Spelling>, o: Occur)
    requires ReadGroup(s, depth, maxDepth).Read?
    ensures var r := ReadGroup(s, depth, maxDepth);
      && items != [] && r.value == Group(sep, Meanings(items), o) && WellFormed(r.value)
      && (maxDepth > 0 ==> depth + Nesting(r.value) <= maxDepth)
      && s == SpellItems(sep, items) + [Close] + MarkText(o) + r.rest && (o == Once ==> !StartsWithMark(r.rest))
    decreases |s|, 1
  {
    var first := ReadItem(SkipBlanks(s), depth, maxDepth);
    var before := SkippedSpaces(s);
    var after := SkippedSpaces(first.rest);
    var it := ItemSpelled(SkipBlanks(s), depth, maxDepth, before, after);
    var more;
    sep, more, o := TailSpelled(it, SkipBlanks(first.rest), Sequence, [first.value], depth, maxDepth);
    items := [it] + more;
    PaddedText(it, s, first.rest, SkipBlanks(first.rest));
    FirstItem(sep, items, o, ReadGroup(s, depth, maxDepth).rest);
    MeaningsOf(it, more);
  }

  lemma MeaningsOf(it: Spelling, more: seq<Spelling>)
    ensures Meanings([it] + more) == [Meaning(it)] + Meanings(more) && ([it] + more)[1..] == more
  {
    assert ([it] + more)[1..] == more;
  }

  lemma {:induction false} TailSpelled(
    it: Spelling, s: seq<Token>, sofar: Sep, done: seq<Particle>, depth: nat, maxDepth: nat)
    returns (sep: Sep, more: seq<Spelling>, o: Occur)
    requires done != [] && ReadTail(s, sofar, done, depth, maxDepth).Read? && !TooDeep(depth, maxDepth)
    requires (forall i :: 0 <= i < |done| ==> WellFormed(done[i]) && Fits(done[i], depth, maxDepth))
    requires |done| == 1 ==> sofar == Sequence
    ensures var r := ReadTail(s, sofar, done, depth, maxDepth);
      && r.value == Group(sep, done + Meanings(more), o) && WellFormed(r.value)
      && (maxDepth > 0 ==> depth + Nesting(r.value) <= maxDepth)
      && s == ItemTail(sep, [it] + more, o, r.rest) && (o == Once ==> !StartsWithMark(r.rest))
    ensures |done| > 1 ==> sep == sofar
    decreases |s|, 2
  {
    if s[0] == Close {
      sep, more, o := sofar, [], MarkOf(s[1..]);
      TailClosed(it, s, sofar, done, depth, maxDepth);
    } else {
      sep := if s[0] == Comma then Sequence else Choice;
      var next := ReadItem(SkipBlanks(s[1..]), depth, maxDepth);
      var before := SkippedSpaces(s[1..]);
      var after := SkippedSpaces(next.rest);
      var it' := ItemSpelled(SkipBlanks(s[1..]), depth, maxDepth, before, after);
      PaddedText(it', s[1..], next.rest, SkipBlanks(next.rest));
      var sep', more', o' := TailSpelled(it', SkipBlanks(next.rest), sep, done + [next.value], depth, maxDepth);
      more, o := [it'] + more', o';
      TailGoesOn(it, it', s, sep, more', o, ReadTail(s, sofar, done, depth, maxDepth).rest);
      MeaningsOf(it', more');
      DoneMore(done, more);
    }
  }

  lemma TailClosed(it: Spelling, s: seq<Token>, sofar: Sep, done: seq<Particle>, depth: nat, maxDepth: nat)
    requires s != [] && s[0] == Close && done != [] && !TooDeep(depth, maxDepth)
    requires (forall i :: 0 <= i < |done| ==> WellFormed(done[i]) && Fits(done[i], depth, maxDepth))
    requires |done| == 1 ==> sofar == Sequence
    ensures var r, o := ReadTail(s, sofar, done, depth, maxDepth), MarkOf(s[1..]);
      && r.value == Group(sofar, done + Meanings([]), o) && WellFormed(r.value)
      && (maxDepth > 0 ==> depth + Nesting(r.value) <= maxDepth)
      && s == ItemTail(sofar, [it] + [], o, r.rest) && (o == Once ==> !StartsWithMark(r.rest))
  {
    ClosedText(it, s, sofar);
    assert done + [] == done;
    FitsAll(done, depth, maxDepth);
  }

  lemma ClosedText(it: Spelling, s: seq<Token>, sep: Sep)
    requires s != [] && s[0] == Close
    ensures var o, rest := MarkOf(s[1..]), AfterMark(s[1..]);
      s == ItemTail(sep, [it] + [], o, rest) && (o == Once ==> !StartsWithMark(rest))
  {
    MarkSpelled(s[1..]);
    StartsWith(Close, s, MarkText(MarkOf(s[1..])), AfterMark(s[1..]));
  }

  lemma StartsWith(c: Token, s: seq<Token>, a: seq<Token>, b: seq<Token>)
    requires s != [] && s[0] == c && s[1..] == a + b
    ensures s == [c] + a + b
  {
    assert s == [c] + s[1..];
  }

  lemma TailGoesOn(it: Spelling, it': Spelling, s: seq<Token>, sep: Sep, more: seq<Spelling>, o: Occur, rest: seq<Token>)
    requires s != [] && s[0] == SepToken(sep) && s[1..] == Padded(it') + ItemTail(sep, [it'] + more, o, rest)
    ensures s == ItemTail(sep, [it] + ([it'] + more), o, rest)
  {
    FirstItem(sep, [it'] + more, o, rest);
    assert s == [SepToken(sep)] + s[1..];
    assert ([it] + ([it'] + more))[1..] == [it'] + more;
  }

  lemma {:induction false} FitsAll(items: seq<Particle>, depth: nat, maxDepth: nat)
    requires !TooDeep(depth, maxDepth) && forall i :: 0 <= i < |items| ==> Fits(items[i], depth, maxDepth)
    ensures maxDepth > 0 ==> depth + InnerNesting(items) <= maxDepth
  {
    if items != [] {
      FitsAll(items[1..], depth, maxDepth);
    }
  }

  /**
   * The reading is exact: the text behind an opening parenthesis is read as `p`, leaving `rest`, exactly when
   * it spells `p` up to `rest` and `p` is well formed and not nested too deep.
   */
  lemma ReadExactly(s: seq<Token>, depth: nat, maxDepth: nat, p: Particle, rest: seq<Token>)
    requires p.Group?
    ensures ReadGroup(s, depth, maxDepth) == Read(p, rest) <==>
      exists items: seq<Spelling> :: SpellsGroup(s, depth, maxDepth, p, items, rest)
  {
    if ReadGroup(s, depth, maxDepth) == Read(p, rest) {
      var sep, items, o := GroupSpelled(s, depth, maxDepth);
      assert SpellsGroup(s, depth, maxDepth, p, items, rest);
    }
    if items: seq<Spelling> :| SpellsGroup(s, depth, maxDepth, p, items, rest) {
      GroupRead(p.sep, items, p.occ, rest, depth, maxDepth);
    }
  }

  ghost predicate SpellsGroup(s: seq<Token>, depth: nat, maxDepth: nat, p: Particle, items: seq<Spelling>, rest: seq<Token>)
    requires p.Group?
  {
    && p.items == Meanings(items) && WellFormed(p) && (maxDepth > 0 ==> depth + Nesting(p) <= maxDepth)
    && s == SpellItems(p.sep, items) + [Close] + MarkText(p.occ) + rest
    && (p.occ == Once ==> !StartsWithMark(rest))
  }

  /** `(a,b?)*` and `(a|b+)` token by token, from behind the opening parenthesis. */
  lemma TokensRead(a: string, b: string)
    ensures ReadGroup([Word(a), Comma, Word(b), Quest, Close, Star], 0, 0)
      == Read(Group(Sequence, [Name(a, Once), Name(b, Opt)], Mult), [])
    ensures ReadGroup([Word(a), Bar, Word(b), Cross, Close], 0, 0)
      == Read(Group(Choice, [Name(a, Once), Name(b, Plus)], Once), [])
  {
    TwoItemsRead(a, b, Comma, Quest, [Star]);
    TwoItemsRead(a, b, Bar, Cross, []);
    assert [Word(a), Comma, Word(b), Quest, Close] + [Star] == [Word(a), Comma, Word(b), Quest, Close, Star];
    assert [Word(a), Bar, Word(b), Cross, Close] + [] == [Word(a), Bar, Word(b), Cross, Close];
    assert [Star][1..] == [];
  }

  lemma WordRead(n: string, rest: seq<Token>)
    ensures ReadItem([Word(n)] + rest, 0, 0) == Read(Name(n, MarkOf(rest)), AfterMark(rest))
  {
    assert ([Word(n)] + rest)[1..] == rest;
  }

  lemma TailEnds(sep: Sep, items: seq<Particle>, last: seq<Token>)
    requires |items| > 0
    ensures ReadTail([Close] + last, sep, items, 0, 0) == Read(Group(sep, items, MarkOf(last)), AfterMark(last))
  {
    assert ([Close] + last)[1..] == last;
  }

  lemma TailGrows(sep: Token, item: Particle, n: string, rest: seq<Token>)
    requires sep == Comma || sep == Bar
    ensures ReadTail([sep] + ([Word(n)] + rest), Sequence, [item], 0, 0) ==
      ReadTail(
        SkipBlanks(AfterMark(rest)), if sep == Comma then Sequence else Choice, [item] + [Name(n, MarkOf(rest))], 0, 0)
  {
    hide ReadItem, MarkOf, AfterMark;
    var s := [Word(n)] + rest;
    assert ([sep] + s)[1..] == s;
    SkipNothing(s);
    WordRead(n, rest);
  }

  lemma TwoItemsRead(a: string, b: string, sep: Token, mark: Token, last: seq<Token>)
    requires (sep == Comma || sep == Bar) && (mark == Quest || mark == Star || mark == Cross)
    ensures ReadGroup([Word(a), sep, Word(b), mark, Close] + last, 0, 0) ==
      Read(
        Group(
          if sep == Comma then Sequence else Choice,
          [Name(a, Once), Name(b, if mark == Quest then Opt else if mark == Star then Mult else Plus)], MarkOf(last)),
        AfterMark(last))
  {
    hide ReadTail, ReadItem, SkipBlanks;
    var v := [mark] + ([Close] + last);
    var t := [sep] + ([Word(b)] + v);
    assert [Word(a), sep, Word(b), mark, Close] + last == [Word(a)] + t;
    assert v[1..] == [Close] + last;
    SkipNothing([Word(a)] + t);
    WordRead(a, t);
    SkipNothing(t);
    TailGrows(sep, Name(a, Once), b, v);
    SkipNothing([Close] + last);
    TailEnds(if sep == Comma then Sequence else Choice, [Name(a, Once)] + [Name(b, MarkOf(v))], last);
    assert [Name(a, Once)] + [Name(b, MarkOf(v))] == [Name(a, Once), Name(b, MarkOf(v))];
  }
}
