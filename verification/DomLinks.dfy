/** The five link fields of a document tree, and what it means for them to form a forest. */
module DomLinks {
  import opened Sequences

  /** A node handle, an index into the link fields; `NIL` plays Go's nil. */
  type Ref = int

  const NIL: Ref := 0

  /** The link fields of every node, indexed by node. */
  datatype Links = Links(
    parent: seq<Ref>, first: seq<Ref>, last: seq<Ref>, next: seq<Ref>, prev: seq<Ref>)
  {
    ghost predicate Node(x: Ref) {
      0 < x < |parent|
    }
  }

  datatype Kind = Element | Text | Comment | CDataSection | ProcessingInstruction | EntityRef

  /** A field of `n - 1` nodes: each entry is nil or a node, and nil has no field. */
  ghost predicate Field(f: seq<Ref>, n: nat) {
    0 < n == |f| && f[NIL] == NIL && forall x :: 0 <= x < n ==> 0 <= f[x] < n
  }

  ghost predicate Closed(l: Links) {
    var n := |l.parent|;
    Field(l.parent, n) && Field(l.first, n) && Field(l.last, n) && Field(l.next, n) && Field(l.prev, n)
  }

  ghost function At(s: seq<Ref>, i: int): Ref {
    if 0 <= i < |s| then s[i] else NIL
  }

  /** `s` is one complete sibling list whose members all have parent `p`. */
  ghost predicate Chain(l: Links, s: seq<Ref>, p: Ref)
    requires Closed(l)
  {
    && Distinct(s)
    && (forall i :: 0 <= i < |s| ==> l.Node(s[i]))
    && (forall i {:trigger l.parent[s[i]]} :: 0 <= i < |s| ==> l.parent[s[i]] == p)
    && (forall i {:trigger l.next[s[i]]} :: 0 <= i < |s| ==> l.next[s[i]] == At(s, i + 1))
    && (forall i {:trigger l.prev[s[i]]} :: 0 <= i < |s| ==> l.prev[s[i]] == At(s, i - 1))
  }

  /** The child list of `p`, given the sibling list of every node. */
  ghost function Kids(l: Links, sibs: seq<seq<Ref>>, p: Ref): seq<Ref>
    requires Closed(l) && |sibs| == |l.parent| && l.Node(p)
  {
    if l.first[p] == NIL then [] else sibs[l.first[p]]
  }

  /** `firstChild` and `lastChild` are the true ends of the list of exactly the nodes whose parent is `p`. */
  ghost predicate Ends(l: Links, sibs: seq<seq<Ref>>, p: Ref)
    requires Closed(l) && |sibs| == |l.parent| && l.Node(p)
  {
    var ks := Kids(l, sibs, p);
    && l.first[p] == At(ks, 0)
    && l.last[p] == At(ks, |ks| - 1)
    && forall x :: l.Node(x) ==> (l.parent[x] == p <==> x in ks)
  }

  /** The sibling list of `x` contains `x`, and is the sibling list of all its members. */
  ghost predicate InList(sibs: seq<seq<Ref>>, x: Ref)
    requires 0 < x < |sibs|
  {
    x in sibs[x] && IsList(sibs, sibs[x])
  }

  /** `s` is a whole sibling list. */
  ghost predicate IsList(sibs: seq<seq<Ref>>, s: seq<Ref>) {
    forall y {:trigger y in s} :: y in s ==> 0 < y < |sibs| && sibs[y] == s
  }

  /** `sibs` gives every node the whole sibling list it stands in: the lists partition the nodes. */
  ghost predicate Partition(sibs: seq<seq<Ref>>) {
    0 < |sibs| && sibs[NIL] == [] && forall x {:trigger InList(sibs, x)} :: 0 < x < |sibs| ==> InList(sibs, x)
  }

  ghost predicate Chained(l: Links, sibs: seq<seq<Ref>>)
    requires Closed(l) && |sibs| == |l.parent|
  {
    forall x {:trigger Chain(l, sibs[x], l.parent[x])} :: l.Node(x) ==> Chain(l, sibs[x], l.parent[x])
  }

  ghost predicate Ended(l: Links, sibs: seq<seq<Ref>>)
    requires Closed(l) && |sibs| == |l.parent|
  {
    forall p {:trigger Ends(l, sibs, p)} :: l.Node(p) ==> Ends(l, sibs, p)
  }

  /** The links spell out the sibling lists `sibs`. */
  ghost predicate Linked(l: Links, sibs: seq<seq<Ref>>) {
    Closed(l) && |sibs| == |l.parent| && Partition(sibs) && Chained(l, sibs) && Ended(l, sibs)
  }

  predicate Container(k: Kind) {
    k == Element || k == EntityRef
  }

  /** Only containers have children. */
  ghost predicate BareLeaves(l: Links, kind: seq<Kind>)
    requires Closed(l)
  {
    |kind| == |l.parent| && forall x {:trigger l.first[x]} :: l.Node(x) && !Container(kind[x]) ==> l.first[x] == NIL
  }

  /** The `k`-th node on the way up from `x`, `x` itself being the 0-th. */
  ghost function Up(parent: seq<Ref>, x: Ref, k: nat): Ref
    decreases k
  {
    if !(0 < x < |parent|) then NIL
    else if k == 0 then x
    else Up(parent, parent[x], k - 1)
  }

  /** `a` is `x` or an ancestor of `x`. */
  ghost predicate Above(parent: seq<Ref>, x: Ref, a: Ref) {
    a != NIL && exists k: nat :: Up(parent, x, k) == a
  }

  /** The way up from `x` ends. */
  ghost predicate TopsOut(parent: seq<Ref>, x: Ref) {
    exists k: nat :: Up(parent, x, k) == NIL
  }

  ghost predicate Rooted(parent: seq<Ref>) {
    forall x :: 0 < x < |parent| ==> TopsOut(parent, x)
  }

  // ----- ancestor chains -----

  lemma {:induction false} UpSplit(parent: seq<Ref>, x: Ref, j: nat, k: nat)
    ensures Up(parent, x, j + k) == Up(parent, Up(parent, x, j), k)
    decreases j
  {
    if j > 0 && 0 < x < |parent| {
      UpSplit(parent, parent[x], j - 1, k);
    } else if !(0 < x < |parent|) {
      assert Up(parent, NIL, k) == NIL;
    } else {
      assert Up(parent, x, j) == x;
    }
  }

  /** A node that is its own proper ancestor never reaches a root. */
  lemma {:induction false} LoopNeverTops(parent: seq<Ref>, x: Ref, k: nat, n: nat)
    requires 0 < x < |parent| && k > 0 && Up(parent, x, k) == x
    ensures Up(parent, x, n) != NIL
    decreases n
  {
    if n < k {
      if Up(parent, x, n) == NIL {
        UpSplit(parent, x, n, k - n);
        assert false;
      }
    } else {
      UpSplit(parent, x, k, n - k);
      LoopNeverTops(parent, x, k, n - k);
    }
  }

  lemma NoNodeAboveItself(parent: seq<Ref>, x: Ref, k: nat)
    requires Rooted(parent) && 0 < x < |parent| && k > 0
    ensures Up(parent, x, k) != x
  {
    assert TopsOut(parent, x);
    var n: nat :| Up(parent, x, n) == NIL;
    if Up(parent, x, k) == x {
      LoopNeverTops(parent, x, k, n);
      assert false;
    }
  }

  /** Cutting parents keeps every way up finite. */
  lemma {:induction false} CutTopsOut(parent: seq<Ref>, parent': seq<Ref>, x: Ref, n: nat)
    requires |parent'| == |parent|
    requires forall y :: 0 < y < |parent| ==> parent'[y] == parent[y] || parent'[y] == NIL
    requires Up(parent, x, n) == NIL
    ensures TopsOut(parent', x)
    decreases n
  {
    if !(0 < x < |parent|) {
      assert Up(parent', x, 0) == NIL;
    } else if parent'[x] == NIL {
      assert Up(parent', NIL, 0) == NIL;
      assert Up(parent', x, 1) == Up(parent', parent'[x], 0);
    } else {
      CutTopsOut(parent, parent', parent[x], n - 1);
      var m: nat :| Up(parent', parent[x], m) == NIL;
      assert Up(parent', x, m + 1) == NIL;
    }
  }

  lemma CutKeepsRooted(parent: seq<Ref>, parent': seq<Ref>)
    requires |parent'| == |parent| && Rooted(parent)
    requires forall y :: 0 < y < |parent| ==> parent'[y] == parent[y] || parent'[y] == NIL
    ensures Rooted(parent')
  {
    forall x | 0 < x < |parent'| ensures TopsOut(parent', x) {
      assert TopsOut(parent, x);
      var n: nat :| Up(parent, x, n) == NIL;
      CutTopsOut(parent, parent', x, n);
    }
  }

  /** Re-parenting nodes that are not above `p` leaves the way up from `p` alone. */
  lemma {:induction false} UpUnmoved(parent: seq<Ref>, parent': seq<Ref>, moved: set<Ref>, p: Ref, k: nat)
    requires |parent'| == |parent|
    requires forall y :: 0 < y < |parent| && y !in moved ==> parent'[y] == parent[y]
    requires forall m :: m in moved ==> !Above(parent, p, m)
    ensures Up(parent', p, k) == Up(parent, p, k)
    decreases k
  {
    if 0 < p < |parent| && k > 0 {
      assert Up(parent, p, 0) == p;
      forall m | m in moved ensures !Above(parent, parent[p], m) {
        AboveStep(parent, p, m);
      }
      UpUnmoved(parent, parent', moved, parent[p], k - 1);
    }
  }

  lemma {:induction false} LinkTopsOut(parent: seq<Ref>, parent': seq<Ref>, moved: set<Ref>, p: Ref, x: Ref, n: nat)
    requires |parent'| == |parent|
    requires forall y :: 0 < y < |parent| && y !in moved ==> parent'[y] == parent[y]
    requires forall y :: 0 < y < |parent| && y in moved ==> parent'[y] == p
    requires TopsOut(parent', p)
    requires Up(parent, x, n) == NIL
    ensures TopsOut(parent', x)
    decreases n
  {
    if !(0 < x < |parent|) {
      assert Up(parent', x, 0) == NIL;
    } else {
      if x !in moved {
        LinkTopsOut(parent, parent', moved, p, parent[x], n - 1);
      }
      var m: nat :| Up(parent', parent'[x], m) == NIL;
      assert Up(parent', x, m + 1) == NIL;
    }
  }

  /** Installing nodes that are not above `p` under `p` closes no loop. */
  lemma LinkKeepsRooted(parent: seq<Ref>, parent': seq<Ref>, moved: set<Ref>, p: Ref)
    requires |parent'| == |parent| && Rooted(parent)
    requires p == NIL || 0 < p < |parent|
    requires forall y :: 0 < y < |parent| && y !in moved ==> parent'[y] == parent[y]
    requires forall y :: 0 < y < |parent| && y in moved ==> parent'[y] == p
    requires forall m :: m in moved ==> !Above(parent, p, m)
    ensures Rooted(parent')
  {
    assert TopsOut(parent', p) by {
      if p == NIL {
        assert Up(parent', p, 0) == NIL;
      } else {
        assert TopsOut(parent, p);
        var n: nat :| Up(parent, p, n) == NIL;
        UpUnmoved(parent, parent', moved, p, n);
      }
    }
    forall x | 0 < x < |parent'| ensures TopsOut(parent', x) {
      assert TopsOut(parent, x);
      var n: nat :| Up(parent, x, n) == NIL;
      LinkTopsOut(parent, parent', moved, p, x, n);
    }
  }

  // ----- rebuilding `Linked` after an update -----

  lemma ChainUnmoved(l: Links, l': Links, s: seq<Ref>, p: Ref)
    requires Closed(l) && Closed(l') && |l'.parent| == |l.parent|
    requires Chain(l, s, p)
    requires forall y :: y in s ==>
      l'.Node(y) && l'.parent[y] == l.parent[y] && l'.next[y] == l.next[y] && l'.prev[y] == l.prev[y]
    ensures Chain(l', s, p)
  {
    forall i | 0 <= i < |s|
      ensures l'.Node(s[i]) && l'.parent[s[i]] == p && l'.next[s[i]] == At(s, i + 1) && l'.prev[s[i]] == At(s, i - 1)
    {
      assert s[i] in s;
      assert l.parent[s[i]] == p && l.next[s[i]] == At(s, i + 1) && l.prev[s[i]] == At(s, i - 1);
    }
  }

  /** Outside `touched`, sibling lists are as before, and none straddles the border. */
  ghost predicate ListsKept(sibs: seq<seq<Ref>>, sibs': seq<seq<Ref>>, touched: set<Ref>)
    requires |sibs| == |sibs'|
  {
    && |sibs| > 0 && sibs'[NIL] == sibs[NIL]
    && forall x :: 0 < x < |sibs| && x !in touched ==>
         sibs'[x] == sibs[x] && forall y :: y in sibs[x] ==> y !in touched
  }

  ghost predicate LinksKept(l: Links, l': Links, touched: set<Ref>)
    requires Closed(l) && Closed(l') && |l.parent| == |l'.parent|
  {
    forall x :: l.Node(x) && x !in touched ==>
      l'.parent[x] == l.parent[x] && l'.next[x] == l.next[x] && l'.prev[x] == l.prev[x]
  }

  ghost predicate ListsRebuilt(sibs': seq<seq<Ref>>, touched: set<Ref>) {
    forall x {:trigger InList(sibs', x)} :: 0 < x < |sibs'| && x in touched ==> InList(sibs', x)
  }

  lemma PartitionKept(sibs: seq<seq<Ref>>, sibs': seq<seq<Ref>>, touched: set<Ref>)
    requires |sibs| == |sibs'| && Partition(sibs)
    requires ListsKept(sibs, sibs', touched) && ListsRebuilt(sibs', touched)
    ensures Partition(sibs')
  {
    forall x | 0 < x < |sibs'| ensures InList(sibs', x) {
      if x !in touched {
        assert InList(sibs, x);
      }
    }
  }

  lemma ChainKept(l: Links, sibs: seq<seq<Ref>>, l': Links, sibs': seq<seq<Ref>>, touched: set<Ref>, x: Ref)
    requires Closed(l) && Closed(l') && |sibs| == |sibs'| == |l.parent| == |l'.parent|
    requires 0 < x < |sibs| && x !in touched && Chain(l, sibs[x], l.parent[x])
    requires ListsKept(sibs, sibs', touched) && LinksKept(l, l', touched)
    ensures Chain(l', sibs'[x], l'.parent[x])
  {
    var s := sibs[x];
    forall y | y in s
      ensures l'.Node(y) && l'.parent[y] == l.parent[y] && l'.next[y] == l.next[y] && l'.prev[y] == l.prev[y]
    {
      var i :| 0 <= i < |s| && s[i] == y;
      assert y !in touched;
    }
    ChainUnmoved(l, l', s, l.parent[x]);
  }

  lemma ChainedKept(l: Links, sibs: seq<seq<Ref>>, l': Links, sibs': seq<seq<Ref>>, touched: set<Ref>)
    requires Closed(l) && Closed(l') && |sibs| == |sibs'| == |l.parent| == |l'.parent|
    requires Chained(l, sibs) && ListsKept(sibs, sibs', touched) && LinksKept(l, l', touched)
    requires forall x :: 0 < x < |sibs'| && x in touched ==> Chain(l', sibs'[x], l'.parent[x])
    ensures Chained(l', sibs')
  {
    forall x | 0 < x < |sibs'|
      ensures Chain(l', sibs'[x], l'.parent[x])
    {
      if x !in touched {
        ChainKept(l, sibs, l', sibs', touched, x);
      }
    }
  }

  // ----- reading a linked forest -----

  lemma Apart(sibs: seq<seq<Ref>>, x: Ref, y: Ref)
    requires 0 < x < |sibs| && 0 < y < |sibs| && InList(sibs, x) && InList(sibs, y) && y !in sibs[x]
    ensures forall z :: z in sibs[y] ==> z !in sibs[x]
  {
  }

  lemma SiblingsShareParent(l: Links, sibs: seq<seq<Ref>>, x: Ref, y: Ref)
    requires Linked(l, sibs) && 0 < x < |sibs| && y in sibs[x]
    ensures l.Node(y) && l.parent[y] == l.parent[x]
  {
    assert Chain(l, sibs[x], l.parent[x]);
    var i :| 0 <= i < |sibs[x]| && sibs[x][i] == y;
    assert l.parent[sibs[x][i]] == l.parent[x];
  }

  lemma ChildListOf(l: Links, sibs: seq<seq<Ref>>, x: Ref)
    requires Linked(l, sibs) && 0 < x < |sibs| && l.parent[x] != NIL
    ensures Kids(l, sibs, l.parent[x]) == sibs[x]
  {
    assert Ends(l, sibs, l.parent[x]);
    assert x in Kids(l, sibs, l.parent[x]);
    assert InList(sibs, l.first[l.parent[x]]);
  }

  lemma KidsHaveParent(l: Links, sibs: seq<seq<Ref>>, p: Ref)
    requires Linked(l, sibs) && l.Node(p)
    ensures forall x :: x in Kids(l, sibs, p) ==> l.Node(x) && l.parent[x] == p && sibs[x] == Kids(l, sibs, p)
  {
    assert Ends(l, sibs, p);
    var ks := Kids(l, sibs, p);
    forall x | x in ks ensures l.Node(x) && l.parent[x] == p && sibs[x] == ks {
      assert InList(sibs, l.first[p]);
    }
  }

  /** All a linked forest says about the list `x` stands in. */
  lemma ListFacts(l: Links, sibs: seq<seq<Ref>>, x: Ref)
    requires Linked(l, sibs) && l.Node(x)
    ensures x in sibs[x] && IsList(sibs, sibs[x]) && Chain(l, sibs[x], l.parent[x])
    ensures forall y :: y in sibs[x] ==> l.parent[y] == l.parent[x]
    ensures l.Node(l.parent[x]) ==>
      && Kids(l, sibs, l.parent[x]) == sibs[x]
      && l.first[l.parent[x]] == At(sibs[x], 0)
      && l.last[l.parent[x]] == At(sibs[x], |sibs[x]| - 1)
  {
    assert InList(sibs, x) && Chain(l, sibs[x], l.parent[x]);
    forall y | y in sibs[x] ensures l.parent[y] == l.parent[x] {
      SiblingsShareParent(l, sibs, x, y);
    }
    if l.Node(l.parent[x]) {
      ChildListOf(l, sibs, x);
      assert Ends(l, sibs, l.parent[x]);
    }
  }

  /** The parts of `Ends` that survive when no child of `q` is touched and no touched node becomes one. */
  lemma EndsKept(l: Links, sibs: seq<seq<Ref>>, l': Links, sibs': seq<seq<Ref>>, q: Ref)
    requires Closed(l) && Closed(l') && |sibs| == |sibs'| == |l.parent| == |l'.parent|
    requires l.Node(q) && Ends(l, sibs, q)
    requires l'.first[q] == l.first[q] && l'.last[q] == l.last[q]
    requires l.first[q] != NIL ==> sibs'[l.first[q]] == sibs[l.first[q]]
    requires forall x :: l.Node(x) ==> (l'.parent[x] == q <==> l.parent[x] == q)
    ensures Ends(l', sibs', q)
  {
    assert Kids(l', sibs', q) == Kids(l, sibs, q);
  }

  // ----- changing one sibling list -----

  /** Every node of `e` is alone, with no parent. */
  ghost predicate Loose(l: Links, sibs: seq<seq<Ref>>, e: set<Ref>)
    requires |sibs| == |l.parent|
  {
    forall y {:trigger y in e} :: y in e ==> l.Node(y) && sibs[y] == [y] && l.parent[y] == NIL
  }

  ghost function Elems(s: seq<Ref>): set<Ref> {
    set y | y in s
  }

  /** `t` becomes a sibling list, and the nodes of `out` lists of their own. */
  ghost function Spliced(sibs: seq<seq<Ref>>, t: seq<Ref>, out: set<Ref>): seq<seq<Ref>> {
    seq(|sibs|, y requires 0 <= y < |sibs| => if y in t then t else if y in out then [y] else sibs[y])
  }

  /**
   * The list `s` of `p` gives up `out`, takes in the loose nodes, and becomes `t`: what the links
   * `l'` must then look like.
   */
  ghost predicate Relisted(l: Links, l': Links, p: Ref, t: seq<Ref>, out: set<Ref>, touched: set<Ref>)
    requires Closed(l) && Closed(l') && |l'.parent| == |l.parent|
  {
    && Chain(l', t, p)
    && (forall y {:trigger y in out} :: y in out && l.Node(y) ==> Chain(l', [y], l'.parent[y]) && l'.parent[y] == NIL)
    && LinksKept(l, l', touched)
    && (forall q :: l.Node(q) && q != p ==> l'.first[q] == l.first[q] && l'.last[q] == l.last[q])
    && (l.Node(p) ==> l'.first[p] == At(t, 0) && l'.last[p] == At(t, |t| - 1))
  }

  lemma SplicedLists(sibs: seq<seq<Ref>>, s: seq<Ref>, extra: set<Ref>, t: seq<Ref>, out: set<Ref>)
    requires Partition(sibs) && IsList(sibs, s)
    requires forall y {:trigger y in extra} :: y in extra ==> 0 < y < |sibs| && sibs[y] == [y]
    requires Elems(t) <= Elems(s) + extra && out == Elems(s) + extra - Elems(t)
    ensures NIL !in Elems(t)
    ensures ListsKept(sibs, Spliced(sibs, t, out), Elems(s) + extra)
    ensures ListsRebuilt(Spliced(sibs, t, out), Elems(s) + extra)
  {
    var touched, sibs' := Elems(s) + extra, Spliced(sibs, t, out);
    forall y | 0 < y < |sibs| && y !in touched
      ensures sibs'[y] == sibs[y] && forall z :: z in sibs[y] ==> z !in touched
    {
      assert y !in Elems(t) && InList(sibs, y);
      forall z | z in sibs[y] ensures z !in touched {
        assert sibs[z] == sibs[y];
      }
    }
    forall x | 0 < x < |sibs'| && x in touched
      ensures InList(sibs', x)
    {
      if x in t {
        forall y | y in t ensures 0 < y < |sibs'| && sibs'[y] == t {
          assert y in Elems(t);
        }
      } else {
        assert x in out;
        assert sibs'[x] == [x];
      }
    }
  }

  lemma SplicedChained(l: Links, sibs: seq<seq<Ref>>, l': Links, p: Ref, t: seq<Ref>, out: set<Ref>, touched: set<Ref>)
    requires Closed(l) && Closed(l') && |sibs| == |l.parent| == |l'.parent|
    requires Chained(l, sibs) && ListsKept(sibs, Spliced(sibs, t, out), touched)
    requires touched == Elems(t) + out
    requires Relisted(l, l', p, t, out, touched)
    ensures Chained(l', Spliced(sibs, t, out))
  {
    var sibs' := Spliced(sibs, t, out);
    forall y | l.Node(y) && y in touched ensures Chain(l', sibs'[y], l'.parent[y]) {
      if y in t {
        var i :| 0 <= i < |t| && t[i] == y;
        assert l'.parent[t[i]] == p;
      } else {
        assert y in out;
      }
    }
    ChainedKept(l, sibs, l', sibs', touched);
  }

  /** The new ends of `p`, once its list is known to be `t`. */
  lemma EndsAre(l: Links, sibs: seq<seq<Ref>>, p: Ref, t: seq<Ref>)
    requires Closed(l) && |sibs| == |l.parent| && l.Node(p)
    requires l.first[p] == At(t, 0) && l.last[p] == At(t, |t| - 1)
    requires IsList(sibs, t)
    requires forall y :: l.Node(y) ==> (l.parent[y] == p <==> y in t)
    ensures Ends(l, sibs, p)
  {
    if t != [] {
      assert t[0] in t;
    }
    assert Kids(l, sibs, p) == t;
  }

  /** Where the parents of `Relisted` links point. */
  lemma RelistedParents(l: Links, l': Links, p: Ref, t: seq<Ref>, out: set<Ref>, y: Ref)
    requires Closed(l) && Closed(l') && |l'.parent| == |l.parent| && l.Node(y)
    requires Relisted(l, l', p, t, out, Elems(t) + out)
    ensures y in t ==> l'.parent[y] == p
    ensures y !in t && y in out ==> l'.parent[y] == NIL
    ensures y !in t && y !in out ==> l'.parent[y] == l.parent[y]
  {
    if y in t {
      var i :| 0 <= i < |t| && t[i] == y;
      assert l'.parent[t[i]] == p;
    }
  }

  lemma SplicedEnded(
    l: Links, sibs: seq<seq<Ref>>, l': Links, p: Ref, t: seq<Ref>, out: set<Ref>, touched: set<Ref>, q: Ref)
    requires Closed(l) && Closed(l') && |sibs| == |l.parent| == |l'.parent| && l.Node(q)
    requires touched == Elems(t) + out && Relisted(l, l', p, t, out, touched)
    requires forall y {:trigger y in touched} :: y in touched ==> l.Node(y) && (l.parent[y] == p || l.parent[y] == NIL)
    requires l.Node(p) ==> forall y :: l.Node(y) && l.parent[y] == p ==> y in touched
    requires Ends(l, sibs, q)
    ensures Ends(l', Spliced(sibs, t, out), q)
  {
    var sibs' := Spliced(sibs, t, out);
    forall y | l.Node(y)
      ensures q == p ==> (l'.parent[y] == q <==> y in t)
      ensures q != p ==> (l'.parent[y] == q <==> l.parent[y] == q)
    {
      RelistedParents(l, l', p, t, out, y);
    }
    if q == p {
      forall y | y in t ensures 0 < y < |sibs'| && sibs'[y] == t {
        assert y in touched;
      }
      EndsAre(l', sibs', p, t);
    } else {
      if l.first[q] != NIL {
        assert l.first[q] in Kids(l, sibs, q);
        assert l.parent[l.first[q]] == q;
        assert l.first[q] !in touched;
      }
      EndsKept(l, sibs, l', sibs', q);
    }
  }

  /**
   * The frame rule every mutation uses: one sibling list `s`, of parent `p`, gives up some nodes, takes in
   * loose ones and becomes `t`.
   */
  lemma SplicedLinked(l: Links, sibs: seq<seq<Ref>>, l': Links, p: Ref, s: seq<Ref>, extra: set<Ref>, t: seq<Ref>, out: set<Ref>)
    requires Linked(l, sibs) && Closed(l') && |l'.parent| == |l.parent|
    requires IsList(sibs, s) && (forall y :: y in s ==> l.parent[y] == p) && (l.Node(p) ==> Kids(l, sibs, p) == s)
    requires Loose(l, sibs, extra)
    requires Elems(t) <= Elems(s) + extra && out == Elems(s) + extra - Elems(t)
    requires Relisted(l, l', p, t, out, Elems(s) + extra)
    ensures Linked(l', Spliced(sibs, t, out))
  {
    var sibs', touched := Spliced(sibs, t, out), Elems(s) + extra;
    assert touched == Elems(t) + out;
    SplicedLists(sibs, s, extra, t, out);
    PartitionKept(sibs, sibs', touched);
    SplicedChained(l, sibs, l', p, t, out, touched);
    forall q | l'.Node(q) ensures Ends(l', sibs', q) {
      assert Ends(l, sibs, q);
      if l.Node(p) {
        assert Ends(l, sibs, p);
      }
      SplicedEnded(l, sibs, l', p, t, out, touched, q);
    }
  }

  // ----- unlinking -----

  /** The link updates of `unlinkNode` on a node of a child or sibling list. */
  ghost function Unlinked(l: Links, x: Ref): Links
    requires Closed(l) && l.Node(x)
  {
    var p, before, after := l.parent[x], l.prev[x], l.next[x];
    Links(
      l.parent[x := NIL],
      if p != NIL && l.first[p] == x then l.first[p := after] else l.first,
      if p != NIL && l.last[p] == x then l.last[p := before] else l.last,
      (if before != NIL then l.next[before := after] else l.next)[x := NIL],
      (if after != NIL then l.prev[after := before] else l.prev)[x := NIL])
  }

  /** Every node of `d` becomes a list of its own; the other lists close up. */
  ghost function Detached(sibs: seq<seq<Ref>>, d: set<Ref>): seq<seq<Ref>> {
    seq(|sibs|, y requires 0 <= y < |sibs| => if y in d then [y] else Without(sibs[y], d))
  }

  lemma UnlinkedClosed(l: Links, x: Ref)
    requires Closed(l) && l.Node(x)
    ensures Closed(Unlinked(l, x)) && |Unlinked(l, x).parent| == |l.parent|
  {
  }

  lemma UnlinkedAt(l: Links, s: seq<Ref>, p: Ref, k: nat, i: nat)
    requires Closed(l) && Chain(l, s, p) && k < |s| && i < |s| - 1
    requires Closed(Unlinked(l, s[k]))
    ensures var t, l' := s[..k] + s[k + 1..], Unlinked(l, s[k]);
      && l'.Node(t[i]) && l'.parent[t[i]] == p
      && l'.next[t[i]] == At(t, i + 1) && l'.prev[t[i]] == At(t, i - 1)
  {
    var x, t := s[k], s[..k] + s[k + 1..];
    assert l.parent[x] == p && l.next[x] == At(s, k + 1) && l.prev[x] == At(s, k - 1);
    var j := if i < k then i else i + 1;
    assert t[i] == s[j] && s[j] != x;
    assert l.parent[s[j]] == p && l.next[s[j]] == At(s, j + 1) && l.prev[s[j]] == At(s, j - 1);
  }

  lemma CutDistinct(s: seq<Ref>, k: nat)
    requires Distinct(s) && k < |s|
    ensures Distinct(s[..k] + s[k + 1..])
    ensures Elems(s[..k] + s[k + 1..]) == Elems(s) - {s[k]}
  {
    var t := s[..k] + s[k + 1..];
    forall y | y in s && y != s[k] ensures y in t {
      var i :| 0 <= i < |s| && s[i] == y;
      assert t[if i < k then i else i - 1] == y;
    }
  }

  lemma UnlinkedChain(l: Links, s: seq<Ref>, p: Ref, k: nat)
    requires Closed(l) && Chain(l, s, p) && k < |s|
    requires Closed(Unlinked(l, s[k]))
    ensures Chain(Unlinked(l, s[k]), s[..k] + s[k + 1..], p)
  {
    var l' := Unlinked(l, s[k]);
    var t := s[..k] + s[k + 1..];
    forall i | 0 <= i < |t|
      ensures l'.Node(t[i]) && l'.parent[t[i]] == p
      ensures l'.next[t[i]] == At(t, i + 1) && l'.prev[t[i]] == At(t, i - 1)
    {
      UnlinkedAt(l, s, p, k, i);
    }
    CutDistinct(s, k);
  }

  lemma UnlinkedRelisted(l: Links, s: seq<Ref>, p: Ref, k: nat)
    requires Closed(l) && Chain(l, s, p) && k < |s| && Closed(Unlinked(l, s[k]))
    requires l.Node(p) ==> l.first[p] == At(s, 0) && l.last[p] == At(s, |s| - 1)
    ensures Relisted(l, Unlinked(l, s[k]), p, s[..k] + s[k + 1..], {s[k]}, Elems(s))
  {
    assert l.next[s[k]] == At(s, k + 1) && l.prev[s[k]] == At(s, k - 1) && l.parent[s[k]] == p;
    UnlinkedChain(l, s, p, k);
    CutDistinct(s, k);
  }

  lemma DetachedOne(sibs: seq<seq<Ref>>, x: Ref, k: nat)
    requires Partition(sibs) && 0 < x < |sibs| && Distinct(sibs[x]) && k < |sibs[x]| && sibs[x][k] == x
    requires sibs[NIL] == []
    ensures Detached(sibs, {x}) == Spliced(sibs, sibs[x][..k] + sibs[x][k + 1..], {x})
  {
    var s := sibs[x];
    var t := s[..k] + s[k + 1..];
    WithoutOne(s, k);
    CutDistinct(s, k);
    forall y | 0 <= y < |sibs|
      ensures Detached(sibs, {x})[y] == Spliced(sibs, t, {x})[y]
    {
      assert y in t <==> y in Elems(t);
      if y != NIL && y !in s {
        assert InList(sibs, x) && InList(sibs, y);
        Apart(sibs, x, y);
        WithoutAbsent(sibs[y], {x});
      }
    }
  }

  /** `unlinkNode` keeps the forest: `x` leaves its list and becomes a list of its own. */
  lemma UnlinkedLinked(l: Links, sibs: seq<seq<Ref>>, x: Ref)
    requires Linked(l, sibs) && l.Node(x)
    ensures Linked(Unlinked(l, x), Detached(sibs, {x}))
  {
    var s, p := sibs[x], l.parent[x];
    ListFacts(l, sibs, x);
    var k :| 0 <= k < |s| && s[k] == x;
    UnlinkedClosed(l, x);
    UnlinkedRelisted(l, s, p, k);
    CutDistinct(s, k);
    DetachedOne(sibs, x, k);
    assert Elems(s) + {} == Elems(s);
    SplicedLinked(l, sibs, Unlinked(l, x), p, s, {}, s[..k] + s[k + 1..], {x});
  }

  /** A loose node has no links but its children. */
  lemma LooseLinks(l: Links, sibs: seq<seq<Ref>>, x: Ref)
    requires Linked(l, sibs) && l.Node(x) && sibs[x] == [x]
    ensures l.next[x] == NIL && l.prev[x] == NIL
  {
    assert Chain(l, sibs[x], l.parent[x]);
    assert l.next[sibs[x][0]] == At(sibs[x], 1) && l.prev[sibs[x][0]] == At(sibs[x], -1);
  }

  /** A node without parent or siblings is a list of its own already. */
  lemma BareIsLoose(l: Links, sibs: seq<seq<Ref>>, x: Ref)
    requires Linked(l, sibs) && l.Node(x) && l.next[x] == NIL && l.prev[x] == NIL
    ensures sibs[x] == [x] && Detached(sibs, {x}) == sibs
  {
    ListFacts(l, sibs, x);
    var s := sibs[x];
    var k :| 0 <= k < |s| && s[k] == x;
    assert l.next[s[k]] == At(s, k + 1) && l.prev[s[k]] == At(s, k - 1);
    assert s == [x];
    forall y | 0 <= y < |sibs| ensures Detached(sibs, {x})[y] == sibs[y] {
      if y != NIL && y != x {
        assert InList(sibs, x) && InList(sibs, y);
        Apart(sibs, x, y);
        WithoutAbsent(sibs[y], {x});
      }
    }
  }

  /** The child list of `p` is the list of the nodes whose parent is `p`. */
  lemma KidsAre(l: Links, sibs: seq<seq<Ref>>, p: Ref, t: seq<Ref>)
    requires Linked(l, sibs) && l.Node(p)
    requires forall y :: l.Node(y) ==> (l.parent[y] == p <==> y in t)
    requires t != [] ==> l.Node(t[0]) && sibs[t[0]] == t
    ensures Kids(l, sibs, p) == t
  {
    KidsHaveParent(l, sibs, p);
    var ks := Kids(l, sibs, p);
    assert forall y :: y in ks ==> y in t;
    assert |ks| > 0 ==> ks[0] in ks;
    if t != [] {
      assert t[0] in t;
      ChildListOf(l, sibs, t[0]);
    }
  }

  /** Detaching nodes removes them from every child list. */
  lemma DetachedKids(l: Links, sibs: seq<seq<Ref>>, l': Links, d: set<Ref>, p: Ref)
    requires Linked(l, sibs) && Linked(l', Detached(sibs, d)) && |l'.parent| == |l.parent| && l.Node(p)
    requires forall y :: l.Node(y) ==> l'.parent[y] == if y in d then NIL else l.parent[y]
    ensures Kids(l', Detached(sibs, d), p) == Without(Kids(l, sibs, p), d)
  {
    var ks := Kids(l, sibs, p);
    var t := Without(ks, d);
    assert Ends(l, sibs, p);
    KidsHaveParent(l, sibs, p);
    if t != [] {
      assert t[0] in t;
      assert t[0] in ks;
    }
    KidsAre(l', Detached(sibs, d), p, t);
  }

  /** A loose node linked behind the children `ks` of `p`, or behind a list without a parent. */
  lemma AppendedKids(l: Links, sibs: seq<seq<Ref>>, l': Links, ks: seq<Ref>, p: Ref, cur: Ref, q: Ref)
    requires Linked(l, sibs) && Linked(l', Spliced(sibs, ks + [cur], {})) && |l'.parent| == |l.parent| && l.Node(q)
    requires l.Node(cur) && l.parent[cur] == NIL && l'.parent == l.parent[cur := p]
    requires forall y :: y in ks ==> l.Node(y) && l.parent[y] == p
    requires l.Node(p) ==> ks == Kids(l, sibs, p)
    ensures Kids(l', Spliced(sibs, ks + [cur], {}), q) == if q == p then Kids(l, sibs, q) + [cur] else Kids(l, sibs, q)
  {
    var sibs', kq := Spliced(sibs, ks + [cur], {}), Kids(l, sibs, q);
    assert Ends(l, sibs, q);
    KidsHaveParent(l, sibs, q);
    if q == p {
      KidsAre(l', sibs', q, ks + [cur]);
    } else {
      if kq != [] {
        assert kq[0] in kq && kq[0] !in ks + [cur];
      }
      KidsAre(l', sibs', q, kq);
    }
  }

  lemma DetachedUnion(sibs: seq<seq<Ref>>, d: set<Ref>, e: set<Ref>)
    ensures Detached(Detached(sibs, d), e) == Detached(sibs, d + e)
  {
    forall y | 0 <= y < |sibs|
      ensures Detached(Detached(sibs, d), e)[y] == Detached(sibs, d + e)[y]
    {
      if y in d {
        if y !in e {
          WithoutAbsent([y], e);
        }
      } else {
        WithoutUnion(sibs[y], d, e);
      }
    }
  }

  lemma DetachedNone(sibs: seq<seq<Ref>>)
    ensures Detached(sibs, {}) == sibs
  {
    forall y | 0 <= y < |sibs| ensures Detached(sibs, {})[y] == sibs[y] {
      WithoutAbsent(sibs[y], {});
    }
  }

  // ----- appending -----

  /** `cur` linked behind `tail`, the last node of the list of `p`; a nil `tail` means the list is empty. */
  ghost function Appended(l: Links, p: Ref, tail: Ref, cur: Ref): Links
    requires Closed(l) && l.Node(cur) && (p == NIL || l.Node(p)) && (tail == NIL || l.Node(tail))
  {
    Links(
      l.parent[cur := p],
      if p != NIL && tail == NIL then l.first[p := cur] else l.first,
      if p != NIL then l.last[p := cur] else l.last,
      if tail != NIL then l.next[tail := cur] else l.next,
      if tail != NIL then l.prev[cur := tail] else l.prev)
  }

  lemma AppendedClosed(l: Links, p: Ref, tail: Ref, cur: Ref)
    requires Closed(l) && l.Node(cur) && (p == NIL || l.Node(p)) && (tail == NIL || l.Node(tail))
    ensures Closed(Appended(l, p, tail, cur)) && |Appended(l, p, tail, cur).parent| == |l.parent|
  {
  }

  lemma AppendedChain(l: Links, p: Ref, s: seq<Ref>, cur: Ref)
    requires Closed(l) && (p == NIL || l.Node(p)) && l.Node(cur) && Chain(l, s, p) && cur !in s
    requires l.next[cur] == NIL && l.prev[cur] == NIL
    requires Closed(Appended(l, p, At(s, |s| - 1), cur))
    ensures Chain(Appended(l, p, At(s, |s| - 1), cur), s + [cur], p)
  {
    var l' := Appended(l, p, At(s, |s| - 1), cur);
    var t := s + [cur];
    forall i | 0 <= i < |t|
      ensures l'.Node(t[i]) && l'.parent[t[i]] == p && l'.next[t[i]] == At(t, i + 1) && l'.prev[t[i]] == At(t, i - 1)
    {
      if i < |s| {
        assert t[i] == s[i] && s[i] in s;
        assert l.parent[s[i]] == p && l.next[s[i]] == At(s, i + 1) && l.prev[s[i]] == At(s, i - 1);
      }
    }
  }

  lemma AppendedRelisted(l: Links, p: Ref, s: seq<Ref>, cur: Ref)
    requires Closed(l) && (p == NIL || l.Node(p)) && l.Node(cur) && Chain(l, s, p) && cur !in s
    requires l.next[cur] == NIL && l.prev[cur] == NIL
    requires l.Node(p) ==> l.first[p] == At(s, 0) && l.last[p] == At(s, |s| - 1)
    ensures var l' := Appended(l, p, At(s, |s| - 1), cur);
      Closed(l') && |l'.parent| == |l.parent| && Relisted(l, l', p, s + [cur], {}, Elems(s) + {cur})
  {
    AppendedClosed(l, p, At(s, |s| - 1), cur);
    AppendedChain(l, p, s, cur);
    assert s != [] ==> s[|s| - 1] in s;
  }

  lemma AppendedLinked(l: Links, sibs: seq<seq<Ref>>, p: Ref, s: seq<Ref>, cur: Ref)
    requires Linked(l, sibs) && (p == NIL || l.Node(p)) && l.Node(cur)
    requires IsList(sibs, s) && Chain(l, s, p) && (forall y :: y in s ==> l.parent[y] == p)
    requires l.Node(p) ==> Kids(l, sibs, p) == s && l.first[p] == At(s, 0) && l.last[p] == At(s, |s| - 1)
    requires cur !in s && sibs[cur] == [cur] && l.parent[cur] == NIL
    ensures Linked(Appended(l, p, At(s, |s| - 1), cur), Spliced(sibs, s + [cur], {}))
  {
    LooseLinks(l, sibs, cur);
    AppendedRelisted(l, p, s, cur);
    assert Elems(s + [cur]) == Elems(s) + {cur};
    SplicedLinked(l, sibs, Appended(l, p, At(s, |s| - 1), cur), p, s, {cur}, s + [cur], {});
  }

  // ----- parents and ends -----

  lemma AboveStep(parent: seq<Ref>, n: Ref, a: Ref)
    requires 0 < n < |parent|
    ensures Above(parent, n, a) <==> a == n || Above(parent, parent[n], a)
  {
    assert Up(parent, n, 0) == n;
    if a != NIL && Above(parent, n, a) && a != n {
      var k: nat :| Up(parent, n, k) == a;
      assert Up(parent, parent[n], k - 1) == a;
    }
    if Above(parent, parent[n], a) {
      var k: nat :| Up(parent, parent[n], k) == a;
      assert Up(parent, n, k + 1) == a;
    }
  }

  lemma AboveUnmoved(parent: seq<Ref>, parent': seq<Ref>, moved: set<Ref>, n: Ref, a: Ref)
    requires |parent'| == |parent| && !Above(parent, n, a)
    requires forall y :: 0 < y < |parent| && y !in moved ==> parent'[y] == parent[y]
    requires forall m :: m in moved ==> !Above(parent, n, m)
    ensures !Above(parent', n, a)
  {
    forall k: nat ensures Up(parent', n, k) == Up(parent, n, k) {
      UpUnmoved(parent, parent', moved, n, k);
    }
  }

  /** The nodes of `d` lost their parent, the others kept it. */
  ghost predicate CutParents(parent: seq<Ref>, parent': seq<Ref>, d: set<Ref>) {
    |parent'| == |parent| && forall y :: 0 < y < |parent| ==> parent'[y] == if y in d then NIL else parent[y]
  }

  lemma CutOneMore(parent: seq<Ref>, mid: seq<Ref>, d: set<Ref>, x: Ref)
    requires CutParents(parent, mid, d) && 0 < x < |parent|
    ensures CutParents(parent, mid[x := NIL], d + {x})
  {
  }

  ghost predicate NoneAbove(parent: seq<Ref>, p: Ref, d: set<Ref>) {
    forall m {:trigger Above(parent, p, m)} :: m in d ==> !Above(parent, p, m)
  }

  lemma StillNotAbove(parent: seq<Ref>, parent': seq<Ref>, n: Ref, d: set<Ref>)
    requires CutParents(parent, parent', d) && 0 < n < |parent| && n !in d
    requires NoneAbove(parent, parent[n], d)
    ensures NoneAbove(parent', parent'[n], d)
  {
    forall m | m in d ensures !Above(parent', parent'[n], m) {
      AboveUnmoved(parent, parent', d, parent[n], m);
    }
  }

  lemma ElemsGrow(nodes: seq<Ref>, i: nat, n: Ref)
    requires i < |nodes|
    ensures Elems(nodes[..i + 1]) - {n} == if nodes[i] == n then Elems(nodes[..i]) - {n} else Elems(nodes[..i]) - {n} + {nodes[i]}
  {
    assert nodes[..i + 1] == nodes[..i] + [nodes[i]];
  }

  lemma NotItsOwnSibling(l: Links, sibs: seq<seq<Ref>>, n: Ref)
    requires Linked(l, sibs) && l.Node(n)
    ensures l.prev[n] != n && l.next[n] != n
  {
    ListFacts(l, sibs, n);
    var s := sibs[n];
    var k :| 0 <= k < |s| && s[k] == n;
    assert l.next[s[k]] == At(s, k + 1) && l.prev[s[k]] == At(s, k - 1);
  }

  lemma EmptyKids(l: Links, sibs: seq<seq<Ref>>, p: Ref)
    requires Linked(l, sibs) && l.Node(p) && l.last[p] == NIL
    ensures Kids(l, sibs, p) == [] && l.first[p] == NIL
  {
    assert Ends(l, sibs, p);
    KidsHaveParent(l, sibs, p);
  }

  lemma SameKids(l: Links, l': Links, sibs: seq<seq<Ref>>, p: Ref)
    requires Linked(l, sibs) && Linked(l', sibs) && l.Node(p) && l'.parent == l.parent
    ensures Kids(l', sibs, p) == Kids(l, sibs, p) && l'.last[p] == l.last[p]
  {
    KidsHaveParent(l, sibs, p);
    assert Ends(l, sibs, p) && Ends(l', sibs, p);
    var ks := Kids(l, sibs, p);
    assert ks != [] ==> ks[0] in ks;
    KidsAre(l', sibs, p, ks);
  }

  lemma LastHasNoNext(l: Links, sibs: seq<seq<Ref>>, p: Ref)
    requires Linked(l, sibs) && l.Node(p) && l.last[p] != NIL
    ensures l.next[l.last[p]] == NIL && sibs[l.last[p]] == Kids(l, sibs, p) && l.parent[l.last[p]] == p
    ensures l.last[p] == At(Kids(l, sibs, p), |Kids(l, sibs, p)| - 1) && l.last[p] in Kids(l, sibs, p)
  {
    assert Ends(l, sibs, p);
    KidsHaveParent(l, sibs, p);
    var ks := Kids(l, sibs, p);
    assert l.last[p] == ks[|ks| - 1] && l.last[p] in ks;
    assert Chain(l, sibs[l.last[p]], p);
    assert l.next[ks[|ks| - 1]] == At(ks, |ks|);
  }

  lemma UnlinkedKeepsTree(l: Links, sibs: seq<seq<Ref>>, kind: seq<Kind>, n: Ref)
    requires Linked(l, sibs) && Rooted(l.parent) && BareLeaves(l, kind) && l.Node(n)
    ensures var l' := Unlinked(l, n); Linked(l', Detached(sibs, {n})) && Rooted(l'.parent) && BareLeaves(l', kind)
    ensures l.prev[n] != n && l.next[n] != n
  {
    UnlinkedLinked(l, sibs, n);
    CutKeepsRooted(l.parent, Unlinked(l, n).parent);
    NotItsOwnSibling(l, sibs, n);
  }
}
