/** The recursive-descent parser of children content models, over a mutable cursor and node table. */
module ContentParser {
  import opened Languages
  import opened ContentModels
  import opened ContentModelText
  import opened ContentTable

  /** The text read is a well-formed particle. */
  lemma ItemWellFormed(s: seq<Token>, depth: nat, maxDepth: nat)
    requires ReadItem(s, depth, maxDepth).Read?
    ensures WellFormed(ReadItem(s, depth, maxDepth).value)
  {
    var sp := ItemSpelled(s, depth, maxDepth, 0, 0);
  }

  lemma GroupCompiled(sep: Sep, items: seq<Particle>, o: Occur)
    requires items != [] && (forall i :: 0 <= i < |items| ==> WellFormed(items[i])) && (|items| == 1 ==> sep == Sequence)
    ensures WellFormed(Group(sep, items, o))
    ensures Compile(Group(sep, items, o)) == Suffixed(Comb(sep, items), o, LastOp(items))
  {
  }

  /** A group read up to its closing parenthesis. */
  lemma GroupClosed(s: seq<Token>, sep: Sep, items: seq<Particle>, depth: nat, maxDepth: nat)
    requires s != [] && s[0] == Close && items != []
    ensures ReadTail(s, sep, items, depth, maxDepth) == Read(Group(sep, items, MarkOf(s[1..])), AfterMark(s[1..]))
  {
  }

  /** One step of reading a group. */
  lemma TailUnrolled(s: seq<Token>, sep: Sep, items: seq<Particle>, depth: nat, maxDepth: nat)
    requires s != [] && s[0] != Close && items != []
    ensures var here := if s[0] == Comma then Sequence else Choice;
      var next := ReadItem(SkipBlanks(s[1..]), depth, maxDepth);
      ReadTail(s, sep, items, depth, maxDepth) ==
        if (s[0] != Comma && s[0] != Bar) || (|items| > 1 && here != sep) || next.Failed? then Failed
        else ReadTail(SkipBlanks(next.rest), here, items + [next.value], depth, maxDepth)
  {
  }

  // ----- groups under construction -----

  ghost function LoOf(ops: seq<Id>, lo: Id, i: nat): Id
    requires i <= |ops|
  {
    if i == 0 then lo else ops[i - 1] + 1
  }

  /** The `i`-th finished item stands left of its operator. */
  ghost predicate OpLaid(t: Table, shapes: seq<Shape>, ops: seq<Id>, lo: Id, items: seq<Particle>, sep: Sep, i: nat)
    requires t.Sized() && i < |ops| == |shapes| && |items| >= |ops|
  {
    && 0 < lo <= LoOf(ops, lo, i) && ops[i] < |t.ctype| && Holds(t, shapes[i], LoOf(ops, lo, i), ops[i])
    && t.c1[ops[i]] == shapes[i].id && t.coccur[ops[i]] == Once
    && t.ctype[ops[i]] == (if sep == Choice then OrType else SeqType)
    && WellFormed(items[i]) && Denote(t, shapes[i], LoOf(ops, lo, i), ops[i]) == Compile(items[i])
  }

  /** Every finished item but the last has an operator of its own; each operator but the last leads to the next. */
  ghost predicate Laid(t: Table, shapes: seq<Shape>, ops: seq<Id>, lo: Id, items: seq<Particle>, sep: Sep)
    requires t.Sized() && |ops| == |shapes| && |items| >= |ops|
  {
    && (forall i {:trigger OpLaid(t, shapes, ops, lo, items, sep, i)} :: 0 <= i < |ops| ==>
      OpLaid(t, shapes, ops, lo, items, sep, i))
    && (forall i, j :: 0 <= i < j < |ops| ==> ops[i] < ops[j])
    && (forall i {:trigger t.c2[ops[i]]} :: 0 <= i < |ops| - 1 ==> 0 < ops[i] < |t.ctype| && t.c2[ops[i]] == ops[i + 1])
  }

  /** The item not yet linked to an operator. */
  ghost predicate TailLaid(t: Table, tail: Shape, lo: Id, hi: Id, item: Particle)
    requires t.Sized()
  {
    Holds(t, tail, lo, hi) && WellFormed(item) && Denote(t, tail, lo, hi) == Compile(item)
  }

  /** A group being parsed: what the parser's three variables point at. */
  ghost predicate UnderConstruction(
    t: Table, shapes: seq<Shape>, ops: seq<Id>, tail: Shape, lo: Id, items: seq<Particle>, sep: Sep,
    retelem: Id, curelem: Id, last: Id)
    requires t.Sized() && |ops| == |shapes| && |items| == |ops| + 1
  {
    && 0 < lo && Laid(t, shapes, ops, lo, items, sep)
    && TailLaid(t, tail, LoOf(ops, lo, |ops|), |t.ctype|, items[|ops|])
    && if ops == [] then retelem == curelem == tail.id && last == NIL
       else retelem == ops[0] && curelem == ops[|ops| - 1] && last == tail.id
  }

  /** The ghost record of a group being parsed. */
  datatype Draft = Draft(items: seq<Particle>, shapes: seq<Shape>, ops: seq<Id>, tail: Shape, sep: Sep) {
    /** What reading on from `s` yields. */
    ghost function Rest(s: seq<Token>, depth: nat, maxDepth: nat): Reading {
      if items == [] then Failed else ReadTail(s, sep, items, depth, maxDepth)
    }
  }

  ghost predicate Drafted(t: Table, d: Draft, lo: Id, retelem: Id, curelem: Id, last: Id)
    requires t.Sized()
  {
    && |d.ops| == |d.shapes| && |d.items| == |d.ops| + 1
    && UnderConstruction(t, d.shapes, d.ops, d.tail, lo, d.items, d.sep, retelem, curelem, last)
  }

  ghost function CombShape(shapes: seq<Shape>, ops: seq<Id>, tail: Shape, i: nat): Shape
    requires i <= |ops| == |shapes|
    decreases |ops| - i
  {
    if i == |ops| then tail else OpAt(ops[i], shapes[i], CombShape(shapes, ops, tail, i + 1))
  }

  lemma ItemsWellFormed(t: Table, shapes: seq<Shape>, ops: seq<Id>, lo: Id, items: seq<Particle>, sep: Sep)
    requires t.Sized() && |ops| == |shapes| && |items| == |ops| + 1
    requires Laid(t, shapes, ops, lo, items, sep) && WellFormed(items[|ops|])
    ensures forall j :: 0 <= j < |items| ==> WellFormed(items[j])
  {
    forall j | 0 <= j < |items| ensures WellFormed(items[j]) {
      if j < |ops| {
        assert OpLaid(t, shapes, ops, lo, items, sep, j);
      }
    }
  }

  lemma OpBounds(t: Table, shapes: seq<Shape>, ops: seq<Id>, lo: Id, items: seq<Particle>, sep: Sep, i: nat)
    requires t.Sized() && i < |ops| == |shapes| && |items| >= |ops| && OpLaid(t, shapes, ops, lo, items, sep, i)
    ensures 0 < lo <= LoOf(ops, lo, i) < ops[i] < |t.ctype|
  {
    HoldsRoot(t, shapes[i], LoOf(ops, lo, i), ops[i]);
  }

  /** A finished group: the last operator leads to the last item. */
  lemma {:induction false} CombHolds(
    t: Table, shapes: seq<Shape>, ops: seq<Id>, tail: Shape, lo: Id, hi: Id, items: seq<Particle>, sep: Sep, i: nat)
    requires t.Sized() && i <= |ops| == |shapes| && |items| == |ops| + 1
    requires Laid(t, shapes, ops, lo, items, sep) && TailLaid(t, tail, LoOf(ops, lo, |ops|), hi, items[|ops|])
    requires ops != [] ==> 0 < ops[|ops| - 1] < |t.ctype| && t.c2[ops[|ops| - 1]] == tail.id
    ensures var s := CombShape(shapes, ops, tail, i);
      && (forall j :: 0 <= j < |items| ==> WellFormed(items[j]))
      && Holds(t, s, LoOf(ops, lo, i), hi) && Denote(t, s, LoOf(ops, lo, i), hi) == Comb(sep, items[i..])
    decreases |ops| - i
  {
    hide Holds, Denote;
    ItemsWellFormed(t, shapes, ops, lo, items, sep);
    if i == |ops| {
      assert items[i..] == [items[i]];
    } else {
      CombHolds(t, shapes, ops, tail, lo, hi, items, sep, i + 1);
      assert items[i..][1..] == items[i + 1..];
      OpsOrdered(t, shapes, ops, lo, items, sep);
      assert i + 1 < |ops| ==> t.c2[ops[i]] == ops[i + 1];
      OpJoined(t, shapes, ops, lo, hi, items, sep, i, CombShape(shapes, ops, tail, i + 1));
    }
  }

  /** One operator over a finished item and the rest of the spine. */
  lemma OpJoined(
    t: Table, shapes: seq<Shape>, ops: seq<Id>, lo: Id, hi: Id, items: seq<Particle>, sep: Sep, i: nat, rest: Shape)
    requires t.Sized() && i < |ops| == |shapes| && |items| == |ops| + 1 && OpLaid(t, shapes, ops, lo, items, sep, i)
    requires Holds(t, rest, ops[i] + 1, hi) && t.c2[ops[i]] == rest.id
    ensures var s := OpAt(ops[i], shapes[i], rest);
      && Holds(t, s, LoOf(ops, lo, i), hi)
      && Denote(t, s, LoOf(ops, lo, i), hi) == Node(sep, Compile(items[i]), Denote(t, rest, ops[i] + 1, hi), Once)
  {
  }

  lemma CombDone(
    t: Table, shapes: seq<Shape>, ops: seq<Id>, tail: Shape, lo: Id, hi: Id, items: seq<Particle>, sep: Sep)
    requires t.Sized() && |ops| == |shapes| && |items| == |ops| + 1
    requires Laid(t, shapes, ops, lo, items, sep) && TailLaid(t, tail, LoOf(ops, lo, |ops|), hi, items[|ops|])
    requires ops != [] ==> 0 < ops[|ops| - 1] < |t.ctype| && t.c2[ops[|ops| - 1]] == tail.id
    ensures var s := CombShape(shapes, ops, tail, 0);
      && (forall j :: 0 <= j < |items| ==> WellFormed(items[j]))
      && Holds(t, s, lo, hi) && Denote(t, s, lo, hi) == Comb(sep, items)
      && s.id == (if ops == [] then tail.id else ops[0])
      && SpineAt(s, LastOp(items)).id == (if ops == [] then tail.id else ops[|ops| - 1])
  {
    CombHolds(t, shapes, ops, tail, lo, hi, items, sep, 0);
    assert items[0..] == items;
    if ops != [] {
      SpineOfComb(shapes, ops, tail, lo, 0, |ops| - 1);
    }
  }

  lemma {:induction false} SpineOfComb(shapes: seq<Shape>, ops: seq<Id>, tail: Shape, lo: Id, i: nat, d: nat)
    requires i + d < |ops| == |shapes|
    ensures var s := CombShape(shapes, ops, tail, i);
      && SpineAt(s, d) == CombShape(shapes, ops, tail, i + d)
      && SpineLo(s, LoOf(ops, lo, i), d) == LoOf(ops, lo, i + d)
    decreases d
  {
    if d > 0 {
      SpineOfComb(shapes, ops, tail, lo, i + 1, d - 1);
    }
  }

  /** `t'` is `t` with one more node `op`, to which the last operator now leads. */
  ghost predicate OpAdded(t: Table, t': Table, ops: seq<Id>, op: Id)
    requires t.Sized() && t'.Sized()
  {
    && op == |t.ctype| < |t'.ctype| && (ops != [] ==> 0 < ops[|ops| - 1] < op)
    && t'.ctype[..op] == t.ctype && t'.coccur[..op] == t.coccur && t'.name[..op] == t.name && t'.c1[..op] == t.c1
    && t'.c2[..op] == if ops == [] then t.c2 else t.c2[ops[|ops| - 1] := op]
  }

  lemma OldOpLaid(
    t: Table, t': Table, shapes: seq<Shape>, ops: seq<Id>, tail: Shape, lo: Id, items: seq<Particle>, sep: Sep, op: Id, i: nat)
    requires t.Sized() && t'.Sized() && i < |ops| == |shapes| && |items| == |ops| + 1 && OpAdded(t, t', ops, op)
    requires 0 < lo && Laid(t, shapes, ops, lo, items, sep)
    ensures OpLaid(t', shapes + [tail], ops + [op], lo, items, sep, i)
  {
    assert OpLaid(t, shapes, ops, lo, items, sep, i);
    assert LoOf(ops + [op], lo, i) == LoOf(ops, lo, i);
    SameBelow(t, t', ops, lo, i, op);
    HoldsKept(t, t', shapes[i], LoOf(ops, lo, i), ops[i]);
    assert ops[i] <= ops[|ops| - 1];
    assert t'.ctype[..op][ops[i]] == t.ctype[ops[i]] && t'.coccur[..op][ops[i]] == t.coccur[ops[i]];
    assert t'.c1[..op][ops[i]] == t.c1[ops[i]];
  }

  lemma NewOpLaid(
    t: Table, t': Table, shapes: seq<Shape>, ops: seq<Id>, tail: Shape, lo: Id, items: seq<Particle>, sep: Sep, op: Id)
    requires t.Sized() && t'.Sized() && |ops| == |shapes| && |items| == |ops| + 1 && OpAdded(t, t', ops, op)
    requires 0 < lo <= LoOf(ops, lo, |ops|) && TailLaid(t, tail, LoOf(ops, lo, |ops|), op, items[|ops|])
    requires forall i, j :: 0 <= i < j < |ops| ==> ops[i] < ops[j]
    requires t'.c1[op] == tail.id && t'.coccur[op] == Once && t'.ctype[op] == (if sep == Choice then OrType else SeqType)
    ensures OpLaid(t', shapes + [tail], ops + [op], lo, items, sep, |ops|)
  {
    var i := |ops|;
    assert LoOf(ops + [op], lo, i) == LoOf(ops, lo, i);
    SameBelow(t, t', ops, lo, i, op);
    HoldsKept(t, t', tail, LoOf(ops, lo, i), op);
  }

  /** A new operator `op` takes the waiting item as its left operand and continues the spine. */
  lemma LaidMore(
    t: Table, t': Table, shapes: seq<Shape>, ops: seq<Id>, tail: Shape, lo: Id, items: seq<Particle>, sep: Sep, sep': Sep, op: Id)
    requires t.Sized() && t'.Sized() && |ops| == |shapes| && |items| == |ops| + 1 && OpAdded(t, t', ops, op)
    requires 0 < lo && Laid(t, shapes, ops, lo, items, sep) && TailLaid(t, tail, LoOf(ops, lo, |ops|), op, items[|ops|])
    requires ops != [] ==> sep' == sep
    requires t'.c1[op] == tail.id && t'.coccur[op] == Once && t'.ctype[op] == (if sep' == Choice then OrType else SeqType)
    ensures Laid(t', shapes + [tail], ops + [op], lo, items, sep') && SameOn(t, t', 1, lo)
  {
    hide Holds, Denote, SameOn;
    var shapes', ops' := shapes + [tail], ops + [op];
    OpsOrdered(t, shapes, ops, lo, items, sep);
    HoldsRoot(t, tail, LoOf(ops, lo, |ops|), op);
    if ops != [] {
      OpBounds(t, shapes, ops, lo, items, sep, |ops| - 1);
    }
    SameBeforeOps(t, t', ops, lo, op);
    NewOpLaid(t, t', shapes, ops, tail, lo, items, sep', op);
    forall i | 0 <= i < |ops'| ensures OpLaid(t', shapes', ops', lo, items, sep', i) {
      if i < |ops| {
        OldOpLaid(t, t', shapes, ops, tail, lo, items, sep, op, i);
      }
    }
    forall i | 0 <= i < |ops'| - 1 ensures 0 < ops'[i] < |t'.ctype| && t'.c2[ops'[i]] == ops'[i + 1] {
      assert t'.c2[..op][ops'[i]] == t'.c2[ops'[i]];
      if i < |ops| - 1 {
        assert 0 < ops[i] < |t.ctype| && t.c2[ops[i]] == ops[i + 1];
      }
    }
  }

  lemma OpsOrdered(t: Table, shapes: seq<Shape>, ops: seq<Id>, lo: Id, items: seq<Particle>, sep: Sep)
    requires t.Sized() && |ops| == |shapes| && |items| >= |ops| && Laid(t, shapes, ops, lo, items, sep)
    ensures forall i :: 0 <= i < |ops| ==> 0 < ops[i] < |t.ctype|
  {
    forall i | 0 <= i < |ops| ensures 0 < ops[i] < |t.ctype| {
      assert OpLaid(t, shapes, ops, lo, items, sep, i);
    }
  }

  /** A change to the operator links leaves what lies between the operators. */
  lemma SameBelow(t: Table, t': Table, ops: seq<Id>, lo: Id, i: nat, op: Id)
    requires t.Sized() && t'.Sized() && i <= |ops| && 0 < lo && OpAdded(t, t', ops, op)
    requires forall i, j :: 0 <= i < j < |ops| ==> ops[i] < ops[j]
    ensures SameOn(t, t', LoOf(ops, lo, i), if i < |ops| then ops[i] else op)
  {
    var a, b := LoOf(ops, lo, i), if i < |ops| then ops[i] else op;
    if i < |ops| {
      assert ops[i] <= ops[|ops| - 1];
    }
    forall j | 0 < a <= j < b
      ensures t'.ctype[j] == t.ctype[j] && t'.coccur[j] == t.coccur[j] && t'.name[j] == t.name[j]
        && t'.c1[j] == t.c1[j] && t'.c2[j] == t.c2[j]
    {
      assert t'.ctype[..op][j] == t.ctype[j] && t'.coccur[..op][j] == t.coccur[j] && t'.name[..op][j] == t.name[j];
      assert t'.c1[..op][j] == t.c1[j];
      assert t'.c2[..op][j] == t.c2[j];
    }
  }

  lemma SameBeforeOps(t: Table, t': Table, ops: seq<Id>, lo: Id, op: Id)
    requires t.Sized() && t'.Sized() && OpAdded(t, t', ops, op) && lo <= op && (ops != [] ==> lo <= ops[|ops| - 1])
    ensures SameOn(t, t', 1, lo)
  {
    forall j | 0 < j < lo
      ensures t'.ctype[j] == t.ctype[j] && t'.coccur[j] == t.coccur[j] && t'.name[j] == t.name[j]
        && t'.c1[j] == t.c1[j] && t'.c2[j] == t.c2[j]
    {
      assert t'.ctype[..op][j] == t.ctype[j] && t'.coccur[..op][j] == t.coccur[j] && t'.name[..op][j] == t.name[j];
      assert t'.c1[..op][j] == t.c1[j];
      assert t'.c2[..op][j] == t.c2[j];
    }
  }

  /** Nodes added behind the operators leave them. */
  lemma LaidKept(
    t: Table, t': Table, shapes: seq<Shape>, ops: seq<Id>, lo: Id, items: seq<Particle>, next: Particle, sep: Sep, hi: Id)
    requires t.Sized() && t'.Sized() && |ops| == |shapes| && |items| >= |ops| && Laid(t, shapes, ops, lo, items, sep)
    requires SameOn(t, t', 1, hi) && ops != [] && ops[|ops| - 1] < hi
    ensures Laid(t', shapes, ops, lo, items + [next], sep)
  {
    OpsOrdered(t, shapes, ops, lo, items, sep);
    forall i | 0 <= i < |ops| ensures OpLaid(t', shapes, ops, lo, items + [next], sep, i) {
      assert OpLaid(t, shapes, ops, lo, items, sep, i);
      assert ops[i] <= ops[|ops| - 1];
      HoldsKept(t, t', shapes[i], LoOf(ops, lo, i), ops[i]);
      assert t'.c1[ops[i]] == t.c1[ops[i]];
    }
    forall i | 0 <= i < |ops| - 1 ensures 0 < ops[i] < |t'.ctype| && t'.c2[ops[i]] == ops[i + 1] {
      assert ops[i] <= ops[|ops| - 1];
      assert t'.c2[ops[i]] == t.c2[ops[i]];
    }
  }

  lemma LastLinked(
    t: Table, t': Table, shapes: seq<Shape>, ops: seq<Id>, tail: Shape, lo: Id, items: seq<Particle>, sep: Sep)
    requires t.Sized() && |ops| == |shapes| && |items| == |ops| + 1 && 0 < lo && ops != []
    requires Laid(t, shapes, ops, lo, items, sep) && TailLaid(t, tail, LoOf(ops, lo, |ops|), |t.ctype|, items[|ops|])
    requires 0 < ops[|ops| - 1] < |t.ctype| && t' == t.(c2 := t.c2[ops[|ops| - 1] := tail.id])
    ensures SameOn(t, t', 1, lo) && Laid(t', shapes, ops, lo, items, sep)
    ensures TailLaid(t', tail, LoOf(ops, lo, |ops|), |t.ctype|, items[|ops|])
  {
    OpsOrdered(t, shapes, ops, lo, items, sep);
    var n := |ops| - 1;
    assert OpLaid(t, shapes, ops, lo, items, sep, n);
    forall i | 0 <= i < |ops| ensures OpLaid(t', shapes, ops, lo, items, sep, i) {
      assert OpLaid(t, shapes, ops, lo, items, sep, i);
      assert ops[i] <= ops[n];
      HoldsKept(t, t', shapes[i], LoOf(ops, lo, i), ops[i]);
    }
    forall i | 0 <= i < n ensures 0 < ops[i] < |t'.ctype| && t'.c2[ops[i]] == ops[i + 1] {
      assert ops[i] < ops[n] && t.c2[ops[i]] == ops[i + 1];
    }
    HoldsKept(t, t', tail, ops[n] + 1, |t.ctype|);
  }

  /** The item read behind the new operator waits for the next one. */
  lemma DraftMore(t: Table, t': Table, d: Draft, op: Id, tail: Shape, item: Particle, sep: Sep, lo: Id, root: Id)
    returns (d': Draft)
    requires t.Sized() && t'.Sized() && |d.ops| == |d.shapes| && |d.items| == |d.ops| + 1 && 0 < lo
    requires op + 1 == |t.ctype| && SameOn(t, t', 1, |t.ctype|) && root == (d.ops + [op])[0]
    requires Laid(t, d.shapes + [d.tail], d.ops + [op], lo, d.items, sep) && TailLaid(t', tail, op + 1, |t'.ctype|, item)
    ensures d' == Draft(d.items + [item], d.shapes + [d.tail], d.ops + [op], tail, sep)
    ensures Drafted(t', d', lo, root, op, tail.id)
  {
    d' := Draft(d.items + [item], d.shapes + [d.tail], d.ops + [op], tail, sep);
    LaidKept(t, t', d'.shapes, d'.ops, lo, d.items, item, sep, |t.ctype|);
  }

  class DeclParser {
    const input: seq<Token>
    const maxDepth: nat
    var pos: nat
    var ctype: seq<NodeType>
    var coccur: seq<Occur>
    var name: seq<string>
    var c1: seq<Id>
    var c2: seq<Id>

    constructor (text: seq<Token>, depthLimit: nat)
      ensures Valid() && input == text && maxDepth == depthLimit && pos == 0 && |ctype| == 1
    {
      input, maxDepth, pos := text, depthLimit, 0;
      ctype, coccur, name, c1, c2 := [ElementType], [Once], [""], [NIL], [NIL];
    }

    ghost function Nodes(): Table
      reads this
    {
      Table(ctype, coccur, name, c1, c2)
    }

    ghost predicate Valid()
      reads this
    {
      Nodes().Sized() && pos <= |input|
    }

    ghost function Ahead(): seq<Token>
      reads this
      requires pos <= |input|
    {
      input[pos..]
    }

    method SkipBlanksPE()
      requires Valid()
      modifies this`pos
      ensures Valid() && Ahead() == SkipBlanks(old(Ahead()))
    {
      while pos < |input| && input[pos] == Blank
        invariant Valid() && SkipBlanks(Ahead()) == SkipBlanks(old(Ahead()))
        decreases |input| - pos
      {
        assert Ahead()[0] == input[pos] && Ahead()[1..] == input[pos + 1..];
        pos := pos + 1;
      }
      assert pos < |input| ==> Ahead()[0] == input[pos];
    }

    method CreateElementContent(n: string, typ: NodeType) returns (id: Id)
      requires Valid()
      modifies this`ctype, this`coccur, this`name, this`c1, this`c2
      ensures Valid() && id == old(|ctype|) && |ctype| == id + 1
      ensures ctype == old(ctype) + [typ] && coccur == old(coccur) + [Once] && name == old(name) + [n]
      ensures c1 == old(c1) + [NIL] && c2 == old(c2) + [NIL]
    {
      id := |ctype|;
      ctype := ctype + [typ];
      coccur := coccur + [Once];
      name := name + [n];
      c1 := c1 + [NIL];
      c2 := c2 + [NIL];
    }

    /** The occurrence mark behind a name. */
    method ParseNameMark(id: Id)
      requires Valid() && 0 < id < |ctype| && coccur[id] == Once
      modifies this`pos, this`coccur
      ensures Valid() && Ahead() == AfterMark(old(Ahead())) && coccur == old(coccur)[id := MarkOf(old(Ahead()))]
    {
      ghost var s := Ahead();
      if pos < |input| {
        assert s[0] == input[pos] && s[1..] == input[pos + 1..];
        match input[pos] {
          case Quest =>
            coccur := coccur[id := Opt];
            pos := pos + 1;
          case Star =>
            coccur := coccur[id := Mult];
            pos := pos + 1;
          case Cross =>
            coccur := coccur[id := Plus];
            pos := pos + 1;
          case _ =>
        }
      }
      assert old(coccur)[id := Once] == old(coccur);
    }

    /** `createElementContent`: a new operator, which becomes the end of the right spine. */
    method AddOperator(
      here: Sep, retelem: Id, curelem: Id, last: Id, ghost lo: Id, ghost items: seq<Particle>, ghost shapes: seq<Shape>,
      ghost ops: seq<Id>, ghost tail: Shape, ghost sep: Sep) returns (root: Id, op: Id)
      requires Valid() && |ops| == |shapes| && |items| == |ops| + 1
      requires UnderConstruction(Nodes(), shapes, ops, tail, lo, items, sep, retelem, curelem, last)
      requires ops != [] ==> here == sep
      modifies this`ctype, this`coccur, this`name, this`c1, this`c2
      ensures Valid() && op == old(|ctype|) && |ctype| == op + 1 && root == (ops + [op])[0]
      ensures SameOn(old(Nodes()), Nodes(), 1, lo)
      ensures Laid(Nodes(), shapes + [tail], ops + [op], lo, items, here)
    {
      ghost var t := Nodes();
      OpsOrdered(t, shapes, ops, lo, items, sep);
      op := CreateElementContent("", if here == Sequence then SeqType else OrType);
      if last == NIL {
        c1 := c1[op := retelem];
        root := op;
      } else {
        c2 := c2[curelem := op];
        c1 := c1[op := last];
        root := retelem;
      }
      assert OpAdded(t, Nodes(), ops, op);
      LaidMore(t, Nodes(), shapes, ops, tail, lo, items, sep, here, op);
    }

    /** A nested group or a name with its mark. */
    method ParseItem(depth: nat) returns (ok: bool, root: Id, ghost shape: Shape)
      requires Valid()
      modifies this`pos, this`ctype, this`coccur, this`name, this`c1, this`c2
      ensures Valid() && |ctype| >= old(|ctype|) && SameOn(old(Nodes()), Nodes(), 1, old(|ctype|))
      ensures var r := ReadItem(old(Ahead()), depth, maxDepth);
        && ok == r.Read?
        && (ok ==>
          && Ahead() == r.rest && root == shape.id && TailLaid(Nodes(), shape, old(|ctype|), |ctype|, r.value))
      decreases |input| - pos, 0
    {
      ghost var s := Ahead();
      ok, root, shape := false, NIL, LeafAt(NIL);
      if pos == |input| {
        return;
      }
      assert s[0] == input[pos] && s[1..] == input[pos + 1..];
      if input[pos] == Open {
        pos := pos + 1;
        SkipBlanksPE();
        ok, root, shape := ParseElementChildren(depth + 1);
        if ok {
          ItemWellFormed(s, depth, maxDepth);
        }
      } else if input[pos].Word? {
        var n := input[pos].name;
        pos := pos + 1;
        root := CreateElementContent(n, ElementType);
        ParseNameMark(root);
        ok, shape := true, LeafAt(root);
      }
    }

    /** `parseElementChildrenContentDeclPriv`: the text behind an opening parenthesis. */
    method ParseElementChildren(depth: nat) returns (ok: bool, root: Id, ghost shape: Shape)
      requires Valid()
      modifies this`pos, this`ctype, this`coccur, this`name, this`c1, this`c2
      ensures Valid() && |ctype| >= old(|ctype|) && SameOn(old(Nodes()), Nodes(), 1, old(|ctype|))
      ensures var r := ReadGroup(old(Ahead()), depth, maxDepth);
        && ok == r.Read?
        && (ok ==>
          && Ahead() == r.rest && root == shape.id && WellFormed(r.value)
          && Holds(Nodes(), shape, old(|ctype|), |ctype|)
          && Denote(Nodes(), shape, old(|ctype|), |ctype|) == Compile(r.value))
      decreases |input| - pos, 3
    {
      ok, root, shape := false, NIL, LeafAt(NIL);
      if maxDepth > 0 && depth > maxDepth {
        return;
      }
      ghost var t0, lo := Nodes(), |ctype|;
      var found, retelem, curelem;
      ghost var items, sep;
      found, retelem, curelem, shape, items, sep := ParseGroupItems(depth);
      if !found || pos == |input| {
        return;
      }
      ghost var t1 := Nodes();
      CloseGroup(depth, retelem, curelem, shape, lo, items, sep);
      SameTrans(t0, t1, Nodes(), 1, lo);
      ok, root := true, retelem;
    }

    /** The closing parenthesis and the mark behind it. */
    method CloseGroup(
      depth: nat, retelem: Id, curelem: Id, ghost shape: Shape, ghost lo: Id, ghost items: seq<Particle>, ghost sep: Sep)
      requires Valid() && pos < |input| && input[pos] == Close
      requires items != [] && (forall i :: 0 <= i < |items| ==> WellFormed(items[i])) && (|items| == 1 ==> sep == Sequence)
      requires Holds(Nodes(), shape, lo, |ctype|) && Denote(Nodes(), shape, lo, |ctype|) == Comb(sep, items)
      requires retelem == shape.id && curelem == SpineAt(shape, LastOp(items)).id
      modifies this`pos, this`coccur
      ensures Valid() && SameOn(old(Nodes()), Nodes(), 1, lo)
      ensures var r := ReadTail(old(Ahead()), sep, items, depth, maxDepth);
        && r.Read? && Ahead() == r.rest && WellFormed(r.value) && Holds(Nodes(), shape, lo, |ctype|)
        && Denote(Nodes(), shape, lo, |ctype|) == Compile(r.value)
    {
      ghost var s := Ahead();
      assert s[0] == input[pos] && s[1..] == input[pos + 1..];
      GroupClosed(s, sep, items, depth, maxDepth);
      GroupCompiled(sep, items, MarkOf(s[1..]));
      pos := pos + 1;
      ParseSuffix(retelem, curelem, shape, lo, LastOp(items));
    }

    /** The items of a group, up to the closing parenthesis or the end of the input. */
    method ParseGroupItems(depth: nat)
      returns (found: bool, retelem: Id, curelem: Id, ghost shape: Shape, ghost items: seq<Particle>, ghost sep: Sep)
      requires Valid() && !TooDeep(depth, maxDepth)
      modifies this`pos, this`ctype, this`coccur, this`name, this`c1, this`c2
      ensures Valid() && |ctype| >= old(|ctype|) && SameOn(old(Nodes()), Nodes(), 1, old(|ctype|))
      ensures !found ==> ReadGroup(old(Ahead()), depth, maxDepth).Failed?
      ensures found ==>
        && (pos < |input| ==> input[pos] == Close)
        && items != [] && (forall i :: 0 <= i < |items| ==> WellFormed(items[i])) && (|items| == 1 ==> sep == Sequence)
        && ReadGroup(old(Ahead()), depth, maxDepth) == ReadTail(Ahead(), sep, items, depth, maxDepth)
        && retelem == shape.id && curelem == SpineAt(shape, LastOp(items)).id
        && Holds(Nodes(), shape, old(|ctype|), |ctype|)
        && Denote(Nodes(), shape, old(|ctype|), |ctype|) == Comb(sep, items)
      decreases |input| - pos, 2
    {
      ghost var t0, lo := Nodes(), |ctype|;
      shape, items, sep := LeafAt(NIL), [], Sequence;
      ghost var d;
      found, retelem, d := ParseFirstItem(depth);
      curelem := retelem;
      if !found {
        return;
      }
      var last, sepHere, sepSeen := NIL, Sequence, false;
      while pos < |input| && input[pos] != Close
        invariant Valid() && |ctype| >= lo && SameOn(t0, Nodes(), 1, lo) && |input| - pos < old(|input| - pos)
        invariant sepSeen == (d.ops != []) && sepHere == d.sep && (!sepSeen ==> sepHere == Sequence)
        invariant ReadGroup(old(Ahead()), depth, maxDepth) == d.Rest(Ahead(), depth, maxDepth)
        invariant Drafted(Nodes(), d, lo, retelem, curelem, last)
        decreases |input| - pos
      {
        ghost var t1 := Nodes();
        found, sepHere, retelem, curelem, last, d :=
          ParseSeparatedItem(sepHere, sepSeen, retelem, curelem, last, depth, lo, d);
        if !found {
          return;
        }
        SameTrans(t0, t1, Nodes(), 1, lo);
        sepSeen := true;
      }
      ghost var t1 := Nodes();
      shape := FinishItems(curelem, last, lo, d, retelem);
      SameTrans(t0, t1, Nodes(), 1, lo);
      items, sep := d.items, d.sep;
    }

    /** The first item of a group, with the white space around it. */
    method ParseFirstItem(depth: nat) returns (ok: bool, retelem: Id, ghost d: Draft)
      requires Valid() && !TooDeep(depth, maxDepth)
      modifies this`pos, this`ctype, this`coccur, this`name, this`c1, this`c2
      ensures Valid() && |ctype| >= old(|ctype|) && SameOn(old(Nodes()), Nodes(), 1, old(|ctype|))
      ensures !ok ==> ReadGroup(old(Ahead()), depth, maxDepth).Failed?
      ensures ok ==>
        && pos > old(pos) && d.sep == Sequence && d.ops == []
        && ReadGroup(old(Ahead()), depth, maxDepth) == d.Rest(Ahead(), depth, maxDepth)
        && Drafted(Nodes(), d, old(|ctype|), retelem, retelem, NIL)
      decreases |input| - pos, 1
    {
      ghost var s, tail := Ahead(), LeafAt(NIL);
      SkipBlanksPE();
      ok, retelem, tail := ParseItem(depth);
      d := Draft([], [], [], tail, Sequence);
      if ok {
        d := d.(items := [ReadItem(SkipBlanks(s), depth, maxDepth).value]);
        SkipBlanksPE();
      }
    }

    /** A separator, which must be the one seen before, and the item behind it. */
    method ParseSeparatedItem(
      sepHere: Sep, sepSeen: bool, retelem: Id, curelem: Id, last: Id, depth: nat, ghost lo: Id, ghost d: Draft)
      returns (ok: bool, here: Sep, root: Id, end: Id, item: Id, ghost d': Draft)
      requires Valid() && pos < |input| && input[pos] != Close && sepSeen == (d.ops != []) && sepHere == d.sep
      requires lo <= |ctype| && Drafted(Nodes(), d, lo, retelem, curelem, last)
      modifies this`pos, this`ctype, this`coccur, this`name, this`c1, this`c2
      ensures Valid() && |ctype| >= old(|ctype|) && SameOn(old(Nodes()), Nodes(), 1, lo)
      ensures !ok ==> d.Rest(old(Ahead()), depth, maxDepth).Failed?
      ensures ok ==>
        && pos > old(pos) && d'.ops != [] && d'.sep == here
        && d.Rest(old(Ahead()), depth, maxDepth) == d'.Rest(Ahead(), depth, maxDepth)
        && Drafted(Nodes(), d', lo, root, end, item)
      decreases |input| - pos, 0
    {
      ghost var s := Ahead();
      assert s[0] == input[pos] && s[1..] == input[pos + 1..];
      TailUnrolled(s, d.sep, d.items, depth, maxDepth);
      ok, here, root, end, item, d' := false, sepHere, retelem, curelem, last, d;
      if input[pos] != Comma && input[pos] != Bar {
        return;
      }
      here := if input[pos] == Comma then Sequence else Choice;
      if sepSeen && here != sepHere {
        return;
      }
      pos := pos + 1;
      ok, root, end, item, d' := ParseNextItem(here, retelem, curelem, last, depth, lo, d);
      if ok {
        SkipBlanksPE();
      }
    }

    /** Links the last item and so completes the tree of the group. */
    method FinishItems(curelem: Id, last: Id, ghost lo: Id, ghost d: Draft, ghost retelem: Id) returns (ghost shape: Shape)
      requires Valid() && Drafted(Nodes(), d, lo, retelem, curelem, last)
      modifies this`c2
      ensures Valid() && SameOn(old(Nodes()), Nodes(), 1, lo)
      ensures Holds(Nodes(), shape, lo, |ctype|) && retelem == shape.id && curelem == SpineAt(shape, LastOp(d.items)).id
      ensures (forall j :: 0 <= j < |d.items| ==> WellFormed(d.items[j]))
      ensures Denote(Nodes(), shape, lo, |ctype|) == Comb(d.sep, d.items)
    {
      if last != NIL {
        LinkLastItem(curelem, last, lo, d.items, d.shapes, d.ops, d.tail, d.sep);
      }
      CombDone(Nodes(), d.shapes, d.ops, d.tail, lo, |ctype|, d.items, d.sep);
      shape := CombShape(d.shapes, d.ops, d.tail, 0);
    }

    /** One separator's operator and the item behind it. */
    method ParseNextItem(here: Sep, retelem: Id, curelem: Id, last: Id, depth: nat, ghost lo: Id, ghost d: Draft)
      returns (ok: bool, root: Id, end: Id, item: Id, ghost d': Draft)
      requires Valid() && (d.ops != [] ==> here == d.sep)
      requires Drafted(Nodes(), d, lo, retelem, curelem, last)
      modifies this`pos, this`ctype, this`coccur, this`name, this`c1, this`c2
      ensures Valid() && |ctype| >= old(|ctype|) && SameOn(old(Nodes()), Nodes(), 1, lo)
      ensures var r := ReadItem(SkipBlanks(old(Ahead())), depth, maxDepth);
        && ok == r.Read?
        && (ok ==>
          && Ahead() == r.rest && d'.items == d.items + [r.value] && d'.ops != [] && d'.sep == here
          && Drafted(Nodes(), d', lo, root, end, item))
      decreases |input| - pos, 1
    {
      ghost var t0, tail := Nodes(), LeafAt(NIL);
      ghost var next := ReadItem(SkipBlanks(Ahead()), depth, maxDepth);
      root, end := AddOperator(here, retelem, curelem, last, lo, d.items, d.shapes, d.ops, d.tail, d.sep);
      SkipBlanksPE();
      ghost var t1 := Nodes();
      ok, item, tail := ParseItem(depth);
      SameTrans(t0, t1, Nodes(), 1, lo);
      d' := d;
      if ok {
        d' := DraftMore(t1, Nodes(), d, end, tail, next.value, here, lo, root);
      }
    }

    /** The last operator leads to the last item. */
    method LinkLastItem(
      curelem: Id, last: Id, ghost lo: Id, ghost items: seq<Particle>, ghost shapes: seq<Shape>, ghost ops: seq<Id>,
      ghost tail: Shape, ghost sep: Sep)
      requires Valid() && |ops| == |shapes| && |items| == |ops| + 1 && 0 < lo && ops != []
      requires Laid(Nodes(), shapes, ops, lo, items, sep)
      requires TailLaid(Nodes(), tail, LoOf(ops, lo, |ops|), |ctype|, items[|ops|])
      requires curelem == ops[|ops| - 1] && last == tail.id
      modifies this`c2
      ensures Valid() && SameOn(old(Nodes()), Nodes(), 1, lo)
      ensures Laid(Nodes(), shapes, ops, lo, items, sep)
      ensures TailLaid(Nodes(), tail, LoOf(ops, lo, |ops|), |ctype|, items[|ops|])
      ensures 0 < curelem < |ctype| && c2[curelem] == tail.id
    {
      ghost var t := Nodes();
      OpsOrdered(t, shapes, ops, lo, items, sep);
      c2 := c2[curelem := last];
      LastLinked(t, Nodes(), shapes, ops, tail, lo, items, sep);
    }

    /** The occurrence mark behind the closing parenthesis. */
    method ParseSuffix(retelem: Id, curelem: Id, ghost shape: Shape, ghost lo: Id, ghost d: nat)
      requires Valid() && Holds(Nodes(), shape, lo, |ctype|) && retelem == shape.id && curelem == SpineAt(shape, d).id
      modifies this`pos, this`coccur
      ensures Valid() && Ahead() == AfterMark(old(Ahead())) && SameOn(old(Nodes()), Nodes(), 1, lo)
      ensures Holds(Nodes(), shape, lo, |ctype|)
      ensures Denote(Nodes(), shape, lo, |ctype|) == Suffixed(old(Denote(Nodes(), shape, lo, |ctype|)), MarkOf(old(Ahead())), d)
    {
      hide Holds, Denote, Stripped, StrippedAt, SpineAt;
      HoldsRoot(Nodes(), shape, lo, |ctype|);
      ghost var s := Ahead();
      if pos == |input| {
        return;
      }
      assert s[0] == input[pos] && s[1..] == input[pos + 1..];
      if input[pos] == Quest {
        SuffixOpt(retelem, shape, lo);
        pos := pos + 1;
      } else if input[pos] == Star {
        SuffixMult(retelem, shape, lo);
        pos := pos + 1;
      } else if input[pos] == Cross {
        SuffixPlus(retelem, curelem, shape, lo, d);
        pos := pos + 1;
      }
    }

    method SuffixOpt(retelem: Id, ghost shape: Shape, ghost lo: Id)
      requires Valid() && Holds(Nodes(), shape, lo, |ctype|) && retelem == shape.id
      modifies this`coccur
      ensures Valid() && SameOn(old(Nodes()), Nodes(), 1, lo) && Holds(Nodes(), shape, lo, |ctype|)
      ensures Denote(Nodes(), shape, lo, |ctype|) == Suffixed(old(Denote(Nodes(), shape, lo, |ctype|)), Opt, 0)
    {
      ghost var t := Nodes();
      if coccur[retelem] == Plus {
        coccur := coccur[retelem := Mult];
      } else {
        coccur := coccur[retelem := Opt];
      }
      RootMark(t, coccur, shape, lo, |ctype|);
      assert Nodes() == t.(coccur := coccur);
    }

    method SuffixMult(retelem: Id, ghost shape: Shape, ghost lo: Id)
      requires Valid() && Holds(Nodes(), shape, lo, |ctype|) && retelem == shape.id
      modifies this`coccur
      ensures Valid() && SameOn(old(Nodes()), Nodes(), 1, lo) && Holds(Nodes(), shape, lo, |ctype|)
      ensures Denote(Nodes(), shape, lo, |ctype|) == Suffixed(old(Denote(Nodes(), shape, lo, |ctype|)), Mult, 0)
    {
      ghost var t := Nodes();
      coccur := coccur[retelem := Mult];
      RootMark(t, coccur, shape, lo, |ctype|);
      ghost var t1 := Nodes();
      assert t1 == t.(coccur := coccur);
      var _ := StripMarks(retelem, shape, lo);
      StrippedDenotes(t1, shape, lo, |ctype|);
      assert Nodes() == t1.(coccur := coccur);
    }

    method SuffixPlus(retelem: Id, curelem: Id, ghost shape: Shape, ghost lo: Id, ghost d: nat)
      requires Valid() && Holds(Nodes(), shape, lo, |ctype|) && retelem == shape.id && curelem == SpineAt(shape, d).id
      modifies this`coccur
      ensures Valid() && SameOn(old(Nodes()), Nodes(), 1, lo) && Holds(Nodes(), shape, lo, |ctype|)
      ensures Denote(Nodes(), shape, lo, |ctype|) == Suffixed(old(Denote(Nodes(), shape, lo, |ctype|)), Plus, d)
    {
      hide Holds, Denote, StrippedMarks, StripsMarks, StrippedAt, StripsAt, SpineAt, SpineLo;
      HoldsRoot(Nodes(), shape, lo, |ctype|);
      ghost var t, tree := Nodes(), Denote(Nodes(), shape, lo, |ctype|);
      if coccur[retelem] == Opt {
        coccur := coccur[retelem := Mult];
      } else {
        coccur := coccur[retelem := Plus];
      }
      ghost var o := coccur[retelem];
      RootMark(t, coccur, shape, lo, |ctype|);
      ghost var t1 := Nodes();
      assert t1 == t.(coccur := coccur);
      SpineHolds(t1, shape, lo, |ctype|, d);
      var found := StripMarks(curelem, SpineAt(shape, d), SpineLo(shape, lo, d));
      StrippedAtDenotes(t1, shape, lo, |ctype|, d);
      StrippedIgnoresRoot(tree, o, d);
      ghost var t2 := Nodes();
      assert t2 == t1.(coccur := coccur);
      if found {
        coccur := coccur[retelem := Mult];
        RootMark(t2, coccur, shape, lo, |ctype|);
        assert Nodes() == t2.(coccur := coccur);
      }
    }

    /** The loop that drops `?` and `*` down a choice spine. */
    method StripMarks(start: Id, ghost s: Shape, ghost lo: Id) returns (found: bool)
      requires Valid() && Holds(Nodes(), s, lo, |ctype|) && start == s.id
      modifies this`coccur
      ensures Valid() && coccur == StrippedMarks(old(Nodes()), s, lo, |ctype|)
      ensures found == StripsMarks(old(Nodes()), s, lo, |ctype|)
    {
      hide Holds, StrippedMarks, StripsMarks, ClearedChildren;
      found := false;
      var curelem := start;
      HoldsRoot(Nodes(), s, lo, |ctype|);
      ghost var t0, cur, at := Nodes(), s, lo;
      while curelem != NIL && ctype[curelem] == OrType
        invariant Valid() && Holds(Nodes(), cur, at, |ctype|) && 0 < at <= curelem == cur.id < |ctype|
        invariant StrippedMarks(t0, s, lo, |ctype|) == StrippedMarks(Nodes(), cur, at, |ctype|)
        invariant StripsMarks(t0, s, lo, |ctype|) == (found || StripsMarks(Nodes(), cur, at, |ctype|))
        decreases |ctype| - at
      {
        StripStep(Nodes(), cur, at, |ctype|);
        HoldsParts(Nodes(), cur, at, |ctype|);
        ClearedIs(Nodes(), cur, at, |ctype|);
        ghost var t1 := ClearedChildren(Nodes(), cur, at, |ctype|);
        var changed := ClearChildren(curelem);
        assert Nodes() == t1;
        found := found || changed;
        cur, at := cur.r, cur.id + 1;
        HoldsRoot(Nodes(), cur, at, |ctype|);
        curelem := c2[curelem];
      }
      StripEnds(Nodes(), cur, at, |ctype|);
    }

    /** Drops the marks of the two children of an operator. */
    method ClearChildren(e: Id) returns (changed: bool)
      requires Valid() && 0 < e < |ctype| && 0 < c1[e] < |ctype| && 0 < c2[e] < |ctype| && c1[e] != c2[e]
      modifies this`coccur
      ensures coccur == Cleared(Cleared(old(coccur), c1[e]), c2[e]) && changed == (coccur != old(coccur))
    {
      ClearedBoth(coccur, c1[e], c2[e]);
      changed := false;
      if c1[e] != NIL && (coccur[c1[e]] == Opt || coccur[c1[e]] == Mult) {
        coccur := coccur[c1[e] := Once];
        changed := true;
      }
      if c2[e] != NIL && (coccur[c2[e]] == Opt || coccur[c2[e]] == Mult) {
        coccur := coccur[c2[e] := Once];
        changed := true;
      }
    }
  }

  /**
   * From text to tree: the text behind the opening parenthesis is accepted exactly when it starts with some
   * spelling of a well-formed model nested at most `maxDepth` deep, and the tree stands for that model.
   */
  method ParseChildrenModel(text: seq<Token>, maxDepth: nat)
    returns (ok: bool, parser: DeclParser, root: Id, ghost shape: Shape, ghost p: Particle)
    ensures fresh(parser) && parser.Valid()
    ensures ok <==> exists q: Particle, items: seq<Spelling>, rest: seq<Token> ::
        q.Group? && SpellsGroup(text, 0, maxDepth, q, items, rest)
    ensures ok ==>
      && p.Group? && WellFormed(p) && (exists items: seq<Spelling> :: SpellsGroup(text, 0, maxDepth, p, items, parser.Ahead()))
      && root == shape.id && Holds(parser.Nodes(), shape, 1, |parser.ctype|)
      && Denote(parser.Nodes(), shape, 1, |parser.ctype|) == Compile(p)
      && TreeLang(Denote(parser.Nodes(), shape, 1, |parser.ctype|)) <= Lang(p)
      && (NoStarResuffixed(p) ==> TreeLang(Denote(parser.Nodes(), shape, 1, |parser.ctype|)) == Lang(p))
  {
    parser := new DeclParser(text, maxDepth);
    assert parser.Ahead() == text;
    ok, root, shape := parser.ParseElementChildren(0);
    ghost var r := ReadGroup(text, 0, maxDepth);
    p := if ok then r.value else Name("", Once);
    if ok {
      var sep, items, o := GroupSpelled(text, 0, maxDepth);
      assert SpellsGroup(text, 0, maxDepth, p, items, r.rest);
      CompileWithin(p);
      if NoStarResuffixed(p) {
        CompileCorrect(p);
      }
    }
    forall q: Particle, items: seq<Spelling>, rest: seq<Token> | q.Group? && SpellsGroup(text, 0, maxDepth, q, items, rest)
      ensures ok
    {
      ReadExactly(text, 0, maxDepth, q, rest);
    }
  }
}
