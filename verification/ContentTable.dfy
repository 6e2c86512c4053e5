/** The nodes of content-model trees as the parser stores them, and the trees they stand for. */
module ContentTable {
  import opened Languages
  import opened ContentModels

  datatype NodeType = ElementType | SeqType | OrType

  type Id = int
  const NIL: Id := 0

  /** The fields of every node, indexed by node; index 0 is unused. */
  datatype Table = Table(ctype: seq<NodeType>, coccur: seq<Occur>, name: seq<string>, c1: seq<Id>, c2: seq<Id>) {
    ghost predicate Sized() {
      0 < |ctype| == |coccur| == |name| == |c1| == |c2|
    }
  }

  /** Which nodes make up a tree. */
  datatype Shape = LeafAt(id: Id) | OpAt(id: Id, l: Shape, r: Shape)

  function SepOf(n: NodeType): Sep {
    if n == OrType then Choice else Sequence
  }

  /**
   * The nodes from `lo` up to `hi` hold the tree `s`. The nodes of a tree are numbered left to right, so its
   * parts never overlap.
   */
  ghost predicate Holds(t: Table, s: Shape, lo: Id, hi: Id)
    requires t.Sized()
    decreases s
  {
    0 < lo <= s.id < hi <= |t.ctype| &&
    match s
    case LeafAt(id) => t.ctype[id] == ElementType && t.c1[id] == NIL && t.c2[id] == NIL
    case OpAt(id, l, r) =>
      && t.ctype[id] != ElementType && t.c1[id] == l.id && t.c2[id] == r.id
      && Holds(t, l, lo, id) && Holds(t, r, id + 1, hi)
  }

  ghost function Denote(t: Table, s: Shape, lo: Id, hi: Id): (r: Tree)
    requires t.Sized() && Holds(t, s, lo, hi)
    ensures r.occ == t.coccur[s.id] && (r.Node? <==> s.OpAt?)
    decreases s
  {
    match s
    case LeafAt(id) => Leaf(t.name[id], t.coccur[id])
    case OpAt(id, l, r) => Node(SepOf(t.ctype[id]), Denote(t, l, lo, id), Denote(t, r, id + 1, hi), t.coccur[id])
  }

  /** The two tables agree on the nodes from `lo` up to `hi`. */
  ghost predicate SameOn(t: Table, t': Table, lo: Id, hi: Id)
    requires t.Sized() && t'.Sized()
  {
    && hi <= |t.ctype| && hi <= |t'.ctype|
    && forall i {:trigger t'.ctype[i]} {:trigger t'.coccur[i]} {:trigger t'.name[i]} {:trigger t'.c1[i]} {:trigger t'.c2[i]} ::
      0 < lo <= i < hi ==>
      t'.ctype[i] == t.ctype[i] && t'.coccur[i] == t.coccur[i] && t'.name[i] == t.name[i]
      && t'.c1[i] == t.c1[i] && t'.c2[i] == t.c2[i]
  }

  lemma SameTrans(t: Table, t1: Table, t2: Table, lo: Id, hi: Id)
    requires t.Sized() && t1.Sized() && t2.Sized() && SameOn(t, t1, lo, hi) && SameOn(t1, t2, lo, hi)
    ensures SameOn(t, t2, lo, hi)
  {
    forall i | 0 < lo <= i < hi
      ensures t2.ctype[i] == t.ctype[i] && t2.coccur[i] == t.coccur[i] && t2.name[i] == t.name[i]
        && t2.c1[i] == t.c1[i] && t2.c2[i] == t.c2[i]
    {
      assert t1.ctype[i] == t.ctype[i] && t2.ctype[i] == t1.ctype[i];
    }
  }

  lemma HoldsRoot(t: Table, s: Shape, lo: Id, hi: Id)
    requires t.Sized() && Holds(t, s, lo, hi)
    ensures 0 < lo <= s.id < hi <= |t.ctype|
  {
  }

  /** What an operator's tree is made of. */
  lemma HoldsParts(t: Table, s: Shape, lo: Id, hi: Id)
    requires t.Sized() && Holds(t, s, lo, hi) && s.OpAt?
    ensures Holds(t, s.l, lo, s.id) && Holds(t, s.r, s.id + 1, hi)
    ensures lo <= s.l.id < s.id < s.r.id < hi
    ensures t.ctype[s.id] != ElementType && t.c1[s.id] == s.l.id && t.c2[s.id] == s.r.id
    ensures Denote(t, s, lo, hi) ==
      Node(SepOf(t.ctype[s.id]), Denote(t, s.l, lo, s.id), Denote(t, s.r, s.id + 1, hi), t.coccur[s.id])
  {
  }

  /** And the tree made of them. */
  lemma HoldsOp(t: Table, s: Shape, lo: Id, hi: Id)
    requires t.Sized() && s.OpAt? && 0 < lo <= s.id < hi <= |t.ctype|
    requires Holds(t, s.l, lo, s.id) && Holds(t, s.r, s.id + 1, hi)
    requires t.ctype[s.id] != ElementType && t.c1[s.id] == s.l.id && t.c2[s.id] == s.r.id
    ensures Holds(t, s, lo, hi)
    ensures Denote(t, s, lo, hi) ==
      Node(SepOf(t.ctype[s.id]), Denote(t, s.l, lo, s.id), Denote(t, s.r, s.id + 1, hi), t.coccur[s.id])
  {
  }

  lemma SameWithin(t: Table, t': Table, lo: Id, hi: Id, lo': Id, hi': Id)
    requires t.Sized() && t'.Sized() && SameOn(t, t', lo, hi) && 0 < lo <= lo' && hi' <= hi
    ensures SameOn(t, t', lo', hi')
  {
  }

  lemma LeafKept(t: Table, t': Table, s: Shape, lo: Id, hi: Id)
    requires t.Sized() && t'.Sized() && Holds(t, s, lo, hi) && SameOn(t, t', lo, hi) && s.LeafAt?
    ensures Holds(t', s, lo, hi) && Denote(t', s, lo, hi) == Denote(t, s, lo, hi)
  {
    assert t'.ctype[s.id] == t.ctype[s.id];
  }

  lemma {:induction false} HoldsKept(t: Table, t': Table, s: Shape, lo: Id, hi: Id)
    requires t.Sized() && t'.Sized() && Holds(t, s, lo, hi) && SameOn(t, t', lo, hi)
    ensures Holds(t', s, lo, hi) && Denote(t', s, lo, hi) == Denote(t, s, lo, hi)
    decreases s
  {
    hide Holds, Denote;
    HoldsRoot(t, s, lo, hi);
    if s.LeafAt? {
      LeafKept(t, t', s, lo, hi);
    } else {
      HoldsParts(t, s, lo, hi);
      assert t'.ctype[s.id] == t.ctype[s.id];
      SameWithin(t, t', lo, hi, lo, s.id);
      SameWithin(t, t', lo, hi, s.id + 1, hi);
      hide SameOn;
      HoldsKept(t, t', s.l, lo, s.id);
      HoldsKept(t, t', s.r, s.id + 1, hi);
      HoldsOp(t', s, lo, hi);
    }
  }

  // ----- the loop that drops marks -----

  ghost function Cleared(occ: seq<Occur>, id: Id): seq<Occur>
    requires 0 <= id < |occ|
  {
    if occ[id] == Opt || occ[id] == Mult then occ[id := Once] else occ
  }

  /** Changing marks leaves the structure. */
  lemma {:induction false} HoldsMarks(t: Table, occ: seq<Occur>, s: Shape, lo: Id, hi: Id)
    requires t.Sized() && Holds(t, s, lo, hi) && |occ| == |t.coccur|
    ensures Holds(t.(coccur := occ), s, lo, hi)
    decreases s
  {
    if s.OpAt? {
      HoldsMarks(t, occ, s.l, lo, s.id);
      HoldsMarks(t, occ, s.r, s.id + 1, hi);
    }
  }

  /** The table once the marks of the two children of `s` are cleared. */
  ghost function ClearedChildren(t: Table, s: Shape, lo: Id, hi: Id): (r: Table)
    requires t.Sized() && Holds(t, s, lo, hi) && s.OpAt?
    ensures |r.coccur| == |t.coccur| && r == t.(coccur := r.coccur)
    ensures r.Sized() && Holds(r, s.l, lo, s.id) && Holds(r, s.r, s.id + 1, hi)
  {
    assert Holds(t, s.l, lo, s.id) && Holds(t, s.r, s.id + 1, hi);
    var occ := Cleared(Cleared(t.coccur, s.l.id), s.r.id);
    HoldsMarks(t, occ, s.l, lo, s.id);
    HoldsMarks(t, occ, s.r, s.id + 1, hi);
    t.(coccur := occ)
  }

  /** The marks after the loop down the choice spine of `s`. */
  ghost function StrippedMarks(t: Table, s: Shape, lo: Id, hi: Id): (r: seq<Occur>)
    requires t.Sized() && Holds(t, s, lo, hi)
    ensures |r| == |t.coccur|
    decreases s
  {
    if s.OpAt? && t.ctype[s.id] == OrType then
      StrippedMarks(ClearedChildren(t, s, lo, hi), s.r, s.id + 1, hi)
    else t.coccur
  }

  ghost predicate StripsMarks(t: Table, s: Shape, lo: Id, hi: Id)
    requires t.Sized() && Holds(t, s, lo, hi)
    decreases s
  {
    s.OpAt? && t.ctype[s.id] == OrType &&
    var t1 := ClearedChildren(t, s, lo, hi);
    t1.coccur != t.coccur || StripsMarks(t1, s.r, s.id + 1, hi)
  }

  /** One round of the loop. */
  lemma StripStep(t: Table, s: Shape, lo: Id, hi: Id)
    requires t.Sized() && Holds(t, s, lo, hi) && t.ctype[s.id] == OrType
    ensures s.OpAt?
    ensures var t1 := ClearedChildren(t, s, lo, hi);
      && StrippedMarks(t, s, lo, hi) == StrippedMarks(t1, s.r, s.id + 1, hi)
      && (StripsMarks(t, s, lo, hi) <==> t1.coccur != t.coccur || StripsMarks(t1, s.r, s.id + 1, hi))
  {
  }

  lemma StripEnds(t: Table, s: Shape, lo: Id, hi: Id)
    requires t.Sized() && Holds(t, s, lo, hi) && t.ctype[s.id] != OrType
    ensures StrippedMarks(t, s, lo, hi) == t.coccur && !StripsMarks(t, s, lo, hi)
  {
  }

  lemma {:induction false} MarksKept(t: Table, occ: seq<Occur>, s: Shape, lo: Id, hi: Id)
    requires t.Sized() && Holds(t, s, lo, hi) && |occ| == |t.coccur|
    requires forall i :: lo <= i < hi ==> occ[i] == t.coccur[i]
    ensures Holds(t.(coccur := occ), s, lo, hi)
    ensures Denote(t.(coccur := occ), s, lo, hi) == Denote(t, s, lo, hi)
  {
    HoldsKept(t, t.(coccur := occ), s, lo, hi);
  }

  /** Only the mark of the root changed. */
  lemma RootMark(t: Table, occ: seq<Occur>, s: Shape, lo: Id, hi: Id)
    requires t.Sized() && Holds(t, s, lo, hi) && |occ| == |t.coccur|
    requires forall i :: lo <= i < hi && i != s.id ==> occ[i] == t.coccur[i]
    ensures Holds(t.(coccur := occ), s, lo, hi)
    ensures Denote(t.(coccur := occ), s, lo, hi) == Denote(t, s, lo, hi).WithOcc(occ[s.id])
  {
    if s.OpAt? {
      MarksKept(t, occ, s.l, lo, s.id);
      MarksKept(t, occ, s.r, s.id + 1, hi);
    }
  }

  /** A child once its mark is cleared; only its own mark changed within it. */
  lemma ClearedChild(t: Table, occ: seq<Occur>, s: Shape, lo: Id, hi: Id)
    requires t.Sized() && Holds(t, s, lo, hi) && |occ| == |t.coccur|
    requires forall i :: lo <= i < hi ==> occ[i] == if i == s.id && t.coccur[i] in {Opt, Mult} then Once else t.coccur[i]
    ensures Holds(t.(coccur := occ), s, lo, hi)
    ensures Denote(t.(coccur := occ), s, lo, hi) == Unmarked(Denote(t, s, lo, hi))
    ensures Unmarked(Denote(t, s, lo, hi)) != Denote(t, s, lo, hi) <==> t.coccur[s.id] in {Opt, Mult}
  {
    hide Holds;
    HoldsRoot(t, s, lo, hi);
    RootMark(t, occ, s, lo, hi);
  }

  lemma ClearedIs(t: Table, s: Shape, lo: Id, hi: Id)
    requires t.Sized() && Holds(t, s, lo, hi) && s.OpAt?
    ensures 0 <= s.l.id < |t.coccur| && 0 <= s.r.id < |t.coccur|
    ensures ClearedChildren(t, s, lo, hi).coccur == Cleared(Cleared(t.coccur, s.l.id), s.r.id)
  {
  }

  lemma ClearedAt(occ: seq<Occur>, l: Id, r: Id)
    requires 0 <= l < |occ| && 0 <= r < |occ| && l != r
    ensures var c := Cleared(Cleared(occ, l), r);
      && |c| == |occ|
      && forall i :: 0 <= i < |occ| ==> c[i] == if (i == l || i == r) && occ[i] in {Opt, Mult} then Once else occ[i]
  {
  }

  lemma ClearedDenotes(t: Table, s: Shape, lo: Id, hi: Id)
    requires t.Sized() && Holds(t, s, lo, hi) && s.OpAt?
    ensures var t1 := ClearedChildren(t, s, lo, hi);
      && Denote(t1, s.l, lo, s.id) == Unmarked(Denote(t, s.l, lo, s.id))
      && Denote(t1, s.r, s.id + 1, hi) == Unmarked(Denote(t, s.r, s.id + 1, hi))
      && (forall i :: 0 <= i < |t.coccur| && (i < lo || i >= hi || i == s.id) ==> t1.coccur[i] == t.coccur[i])
    ensures ClearedChildren(t, s, lo, hi).coccur != t.coccur <==>
      Unmarked(Denote(t, s.l, lo, s.id)) != Denote(t, s.l, lo, s.id) ||
      Unmarked(Denote(t, s.r, s.id + 1, hi)) != Denote(t, s.r, s.id + 1, hi)
  {
    hide Holds, Denote, Unmarked, Cleared, ClearedChildren;
    var occ := ClearedChildren(t, s, lo, hi).coccur;
    HoldsRoot(t, s, lo, hi);
    HoldsParts(t, s, lo, hi);
    ClearedIs(t, s, lo, hi);
    ClearedAt(t.coccur, s.l.id, s.r.id);
    ClearedChild(t, occ, s.l, lo, s.id);
    ClearedChild(t, occ, s.r, s.id + 1, hi);
    ClearedBoth(t.coccur, s.l.id, s.r.id);
  }

  /** Changing marks within the right part only. */
  lemma RightMarks(t: Table, occ: seq<Occur>, s: Shape, lo: Id, hi: Id)
    requires t.Sized() && Holds(t, s, lo, hi) && s.OpAt? && |occ| == |t.coccur|
    requires forall i :: 0 <= i < |occ| && (i <= s.id || i >= hi) ==> occ[i] == t.coccur[i]
    requires Holds(t.(coccur := occ), s.r, s.id + 1, hi)
    ensures Holds(t.(coccur := occ), s, lo, hi)
    ensures Denote(t.(coccur := occ), s, lo, hi) ==
      Node(SepOf(t.ctype[s.id]), Denote(t, s.l, lo, s.id), Denote(t.(coccur := occ), s.r, s.id + 1, hi), t.coccur[s.id])
  {
    MarksKept(t, occ, s.l, lo, s.id);
  }

  lemma {:induction false} StrippedDenotes(t: Table, s: Shape, lo: Id, hi: Id)
    requires t.Sized() && Holds(t, s, lo, hi)
    ensures var occ := StrippedMarks(t, s, lo, hi);
      && (forall i :: 0 <= i < |occ| && (i < lo || i >= hi || i == s.id) ==> occ[i] == t.coccur[i])
      && Holds(t.(coccur := occ), s, lo, hi)
      && Denote(t.(coccur := occ), s, lo, hi) == Stripped(Denote(t, s, lo, hi))
    ensures StripsMarks(t, s, lo, hi) <==> Strips(Denote(t, s, lo, hi))
    decreases s
  {
    hide Holds, Denote, StrippedMarks, StripsMarks, ClearedChildren, Unmarked;
    HoldsRoot(t, s, lo, hi);
    if t.ctype[s.id] == OrType {
      StripStep(t, s, lo, hi);
      HoldsParts(t, s, lo, hi);
      var t1 := ClearedChildren(t, s, lo, hi);
      ClearedDenotes(t, s, lo, hi);
      StrippedDenotes(t1, s.r, s.id + 1, hi);
      var occ := StrippedMarks(t1, s.r, s.id + 1, hi);
      HoldsMarks(t, t1.coccur, s, lo, hi);
      RightMarks(t1, occ, s, lo, hi);
      assert t1.(coccur := occ) == t.(coccur := occ);
    } else {
      StripEnds(t, s, lo, hi);
      NotChoice(t, s, lo, hi);
      assert t.(coccur := t.coccur) == t;
    }
  }

  lemma NotChoice(t: Table, s: Shape, lo: Id, hi: Id)
    requires t.Sized() && Holds(t, s, lo, hi) && t.ctype[s.id] != OrType
    ensures Stripped(Denote(t, s, lo, hi)) == Denote(t, s, lo, hi) && !Strips(Denote(t, s, lo, hi))
  {
  }

  lemma ClearedBoth(occ: seq<Occur>, l: Id, r: Id)
    requires 0 <= l < |occ| && 0 <= r < |occ| && l != r
    ensures Cleared(Cleared(occ, l), r) != occ <==>
      (occ[l] == Opt || occ[l] == Mult || occ[r] == Opt || occ[r] == Mult)
  {
    var c := Cleared(Cleared(occ, l), r);
    if occ[l] == Opt || occ[l] == Mult {
      assert c[l] == Once;
    }
    if occ[r] == Opt || occ[r] == Mult {
      assert c[r] == Once;
    }
  }

  // ----- the spine -----

  ghost function SpineAt(s: Shape, d: nat): Shape {
    if d == 0 || s.LeafAt? then s else SpineAt(s.r, d - 1)
  }

  ghost function SpineLo(s: Shape, lo: Id, d: nat): Id {
    if d == 0 || s.LeafAt? then lo else SpineLo(s.r, s.id + 1, d - 1)
  }

  lemma {:induction false} SpineHolds(t: Table, s: Shape, lo: Id, hi: Id, d: nat)
    requires t.Sized() && Holds(t, s, lo, hi)
    ensures lo <= SpineLo(s, lo, d) && Holds(t, SpineAt(s, d), SpineLo(s, lo, d), hi)
  {
    if d > 0 && s.OpAt? {
      SpineHolds(t, s.r, s.id + 1, hi, d - 1);
    }
  }

  /** The loop started at the `d`-th operator of the spine. */
  lemma {:induction false} StrippedAtDenotes(t: Table, s: Shape, lo: Id, hi: Id, d: nat)
    requires t.Sized() && Holds(t, s, lo, hi) && Holds(t, SpineAt(s, d), SpineLo(s, lo, d), hi)
    ensures var occ := StrippedMarks(t, SpineAt(s, d), SpineLo(s, lo, d), hi);
      && (forall i :: 0 <= i < |occ| && (i < lo || i >= hi || i == s.id) ==> occ[i] == t.coccur[i])
      && Holds(t.(coccur := occ), s, lo, hi)
      && Denote(t.(coccur := occ), s, lo, hi) == StrippedAt(Denote(t, s, lo, hi), d)
    ensures StripsMarks(t, SpineAt(s, d), SpineLo(s, lo, d), hi) <==> StripsAt(Denote(t, s, lo, hi), d)
    decreases s
  {
    hide Holds, Denote, StrippedMarks, StripsMarks, Stripped, Strips;
    LeafDenotes(t, s, lo, hi);
    if d == 0 || s.LeafAt? {
      StrippedDenotes(t, s, lo, hi);
    } else {
      var at, from := SpineAt(s.r, d - 1), SpineLo(s.r, s.id + 1, d - 1);
      HoldsParts(t, s, lo, hi);
      StrippedAtDenotes(t, s.r, s.id + 1, hi, d - 1);
      RightMarks(t, StrippedMarks(t, at, from, hi), s, lo, hi);
    }
  }

  lemma LeafDenotes(t: Table, s: Shape, lo: Id, hi: Id)
    requires t.Sized() && Holds(t, s, lo, hi)
    ensures s.LeafAt? <==> Denote(t, s, lo, hi).Leaf?
  {
  }

  lemma {:induction false} StrippedIgnoresRoot(t: Tree, o: Occur, d: nat)
    ensures StrippedAt(t.WithOcc(o), d) == StrippedAt(t, d).WithOcc(o)
    ensures StripsAt(t.WithOcc(o), d) == StripsAt(t, d)
  {
  }
}
