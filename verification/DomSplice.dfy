/** The pointer updates of `replaceNode`, and the forest they leave. */
module DomSplice {
  import opened Sequences
  import opened DomLinks

  ghost predicate AllNodes(nodes: seq<Ref>, n: nat) {
    forall j :: 0 <= j < |nodes| ==> 0 < nodes[j] < n
  }

  /** The `parent` fields once `nodes` stand in the place of `n` under `p`. */
  ghost predicate ParentsPlaced(f: seq<Ref>, f': seq<Ref>, p: Ref, n: Ref, nodes: seq<Ref>) {
    && |f'| == |f| && AllNodes(nodes, |f|)
    && (forall j {:trigger f'[nodes[j]]} :: 0 <= j < |nodes| ==> f'[nodes[j]] == p)
    && (forall y :: 0 < y < |f| && y !in nodes && y != n ==> f'[y] == f[y])
    && (0 < n < |f| && n !in nodes ==> f'[n] == NIL)
  }

  /** The `prev` fields once `nodes` stand between `before` and `after`. */
  ghost predicate PrevsPlaced(f: seq<Ref>, f': seq<Ref>, before: Ref, after: Ref, n: Ref, nodes: seq<Ref>) {
    && |f'| == |f| && AllNodes(nodes, |f|) && nodes != []
    && (forall j {:trigger f'[nodes[j]]} :: 0 <= j < |nodes| ==> f'[nodes[j]] == if j == 0 then before else nodes[j - 1])
    && (forall y :: 0 < y < |f| && y !in nodes && y != n ==> f'[y] == if y == after then nodes[|nodes| - 1] else f[y])
    && (0 < n < |f| && n !in nodes ==> f'[n] == NIL)
  }

  /** The `next` fields once `nodes` stand between `before` and `after`. */
  ghost predicate NextsPlaced(f: seq<Ref>, f': seq<Ref>, before: Ref, after: Ref, n: Ref, nodes: seq<Ref>) {
    && |f'| == |f| && AllNodes(nodes, |f|) && nodes != []
    && (forall j {:trigger f'[nodes[j]]} :: 0 <= j < |nodes| ==>
      f'[nodes[j]] == if j == |nodes| - 1 then after else nodes[j + 1])
    && (forall y :: 0 < y < |f| && y !in nodes && y != n ==> f'[y] == if y == before then nodes[0] else f[y])
    && (0 < n < |f| && n !in nodes ==> f'[n] == NIL)
  }

  /** The fields of the nodes once `nodes` stand between `a` and `b` in the place of `n`. */
  ghost predicate Substituted(l: Links, l': Links, p: Ref, a: seq<Ref>, n: Ref, b: seq<Ref>, nodes: seq<Ref>)
    requires Closed(l) && Closed(l') && |l'.parent| == |l.parent|
  {
    && ParentsPlaced(l.parent, l'.parent, p, n, nodes)
    && PrevsPlaced(l.prev, l'.prev, At(a, |a| - 1), At(b, 0), n, nodes)
    && NextsPlaced(l.next, l'.next, At(a, |a| - 1), At(b, 0), n, nodes)
  }

  lemma AroundIndex(a: seq<Ref>, n: Ref, b: seq<Ref>, k: nat)
    requires k < |a + [n] + b| && k != |a|
    ensures var s := a + [n] + b;
      && s[|a|] == n && s[k] in a + b
      && (a != [] ==> s[|a| - 1] == a[|a| - 1]) && (b != [] ==> s[|a| + 1] == b[0])
  {
    assert (a + [n] + b)[k] == (a + b)[if k < |a| then k else k - 1];
  }

  /** The nodes before and after the replaced one keep their links but for the seams. */
  lemma SubstitutedOutside(l: Links, l': Links, p: Ref, a: seq<Ref>, n: Ref, b: seq<Ref>, nodes: seq<Ref>, k: nat)
    requires Closed(l) && Closed(l') && |l'.parent| == |l.parent| && |nodes| > 0
    requires Chain(l, a + [n] + b, p) && Substituted(l, l', p, a, n, b, nodes)
    requires forall y :: y in nodes ==> y == n || y !in a + b
    requires k < |a + [n] + b| && k != |a|
    ensures var s := a + [n] + b;
      && l.Node(s[k]) && l'.parent[s[k]] == p
      && l'.next[s[k]] == (if k == |a| - 1 then nodes[0] else At(s, k + 1))
      && l'.prev[s[k]] == (if k == |a| + 1 then nodes[|nodes| - 1] else At(s, k - 1))
  {
    var s := a + [n] + b;
    AroundIndex(a, n, b, k);
    var y := s[k];
    assert l.Node(y) && y != n && y !in nodes;
    assert l.parent[y] == p && l.next[s[k]] == At(s, k + 1) && l.prev[s[k]] == At(s, k - 1);
  }

  lemma SubstitutedAt(l: Links, l': Links, p: Ref, a: seq<Ref>, n: Ref, b: seq<Ref>, nodes: seq<Ref>, i: nat)
    requires Closed(l) && Closed(l') && |l'.parent| == |l.parent| && |nodes| > 0
    requires Chain(l, a + [n] + b, p) && Substituted(l, l', p, a, n, b, nodes)
    requires forall y :: y in nodes ==> y == n || y !in a + b
    requires i < |a + nodes + b|
    ensures var t := a + nodes + b;
      l'.Node(t[i]) && l'.parent[t[i]] == p && l'.next[t[i]] == At(t, i + 1) && l'.prev[t[i]] == At(t, i - 1)
  {
    var t := a + nodes + b;
    if |a| <= i < |a| + |nodes| {
      assert t[i] == nodes[i - |a|];
      assert l'.parent[nodes[i - |a|]] == p;
      var j := i - |a|;
      assert l'.prev[nodes[j]] == (if j == 0 then At(a, |a| - 1) else nodes[j - 1]);
      assert l'.next[nodes[j]] == (if j == |nodes| - 1 then At(b, 0) else nodes[j + 1]);
    } else if i < |a| {
      SubstitutedOutside(l, l', p, a, n, b, nodes, i);
    } else {
      SubstitutedOutside(l, l', p, a, n, b, nodes, i - |nodes| + 1);
    }
  }

  lemma SubstitutedDistinct(a: seq<Ref>, n: Ref, b: seq<Ref>, nodes: seq<Ref>)
    requires Distinct(a + [n] + b) && Distinct(nodes)
    requires forall y :: y in nodes ==> y == n || y !in a + b
    ensures Distinct(a + nodes + b)
  {
    var s, t := a + [n] + b, a + nodes + b;
    forall i, j | 0 <= i < j < |t| ensures t[i] != t[j] {
      var i', j' := if i < |a| then i else i - |nodes| + 1, if j < |a| then j else j - |nodes| + 1;
      if |a| <= i < |a| + |nodes| {
        assert t[i] == nodes[i - |a|];
        if j >= |a| + |nodes| {
          assert t[j] == s[j'] && s[j'] in a + b && s[|a|] == n;
        }
      } else if |a| <= j < |a| + |nodes| {
        assert t[j] == nodes[j - |a|];
        assert t[i] == s[i'] && s[i'] in a + b && s[|a|] == n;
      } else {
        assert t[i] == s[i'] && t[j] == s[j'];
      }
    }
  }

  lemma SubstitutedRelisted(l: Links, l': Links, p: Ref, a: seq<Ref>, n: Ref, b: seq<Ref>, nodes: seq<Ref>)
    requires Closed(l) && Closed(l') && |l'.parent| == |l.parent| && |nodes| > 0 && l.Node(n)
    requires Chain(l, a + [n] + b, p) && Substituted(l, l', p, a, n, b, nodes) && Distinct(nodes)
    requires forall y :: y in nodes ==> y == n || y !in a + b
    requires forall q :: l.Node(q) && q != p ==> l'.first[q] == l.first[q] && l'.last[q] == l.last[q]
    requires l.Node(p) ==> l'.first[p] == At(a + nodes + b, 0) && l'.last[p] == At(a + nodes + b, |a + nodes + b| - 1)
    ensures Relisted(l, l', p, a + nodes + b, {n} - Elems(nodes), Elems(a + [n] + b) + Elems(nodes))
  {
    hide Chain, Substituted;
    var t := a + nodes + b;
    forall i | 0 <= i < |t|
      ensures l'.Node(t[i]) && l'.parent[t[i]] == p && l'.next[t[i]] == At(t, i + 1) && l'.prev[t[i]] == At(t, i - 1)
    {
      SubstitutedAt(l, l', p, a, n, b, nodes, i);
    }
    ChainDistinct(l, a + [n] + b, p);
    SubstitutedDistinct(a, n, b, nodes);
    IsChain(l', t, p);
    forall y | l.Node(y) && y !in Elems(a + [n] + b) + Elems(nodes)
      ensures l'.parent[y] == l.parent[y] && l'.next[y] == l.next[y] && l'.prev[y] == l.prev[y]
    {
      SubstitutedApart(l, l', p, a, n, b, nodes, y);
    }
    if n !in nodes {
      SubstitutedDropped(l, l', p, a, n, b, nodes);
    }
  }

  lemma IsChain(l: Links, t: seq<Ref>, p: Ref)
    requires Closed(l) && Distinct(t)
    requires forall i :: 0 <= i < |t| ==>
      l.Node(t[i]) && l.parent[t[i]] == p && l.next[t[i]] == At(t, i + 1) && l.prev[t[i]] == At(t, i - 1)
    ensures Chain(l, t, p)
  {
  }

  lemma ChainDistinct(l: Links, s: seq<Ref>, p: Ref)
    requires Closed(l) && Chain(l, s, p)
    ensures Distinct(s)
  {
  }

  /** A node of neither list keeps its links. */
  lemma SubstitutedApart(l: Links, l': Links, p: Ref, a: seq<Ref>, n: Ref, b: seq<Ref>, nodes: seq<Ref>, y: Ref)
    requires Closed(l) && Closed(l') && |l'.parent| == |l.parent| && Substituted(l, l', p, a, n, b, nodes)
    requires l.Node(y) && y !in a + [n] + b && y !in nodes
    ensures l'.parent[y] == l.parent[y] && l'.next[y] == l.next[y] && l'.prev[y] == l.prev[y]
  {
    var s := a + [n] + b;
    assert a != [] ==> s[|a| - 1] == a[|a| - 1];
    assert b != [] ==> s[|a| + 1] == b[0];
    assert s[|a|] == n;
  }

  /** The replaced node is cut off unless it is an operand. */
  lemma SubstitutedDropped(l: Links, l': Links, p: Ref, a: seq<Ref>, n: Ref, b: seq<Ref>, nodes: seq<Ref>)
    requires Closed(l) && Closed(l') && |l'.parent| == |l.parent| && Substituted(l, l', p, a, n, b, nodes)
    requires l.Node(n) && n !in nodes
    ensures l'.parent[n] == NIL && Chain(l', [n], NIL)
  {
  }

  lemma SubstitutedLinked(
    l: Links, sibs: seq<seq<Ref>>, l': Links, p: Ref, a: seq<Ref>, n: Ref, b: seq<Ref>, nodes: seq<Ref>)
    requires Linked(l, sibs) && l.Node(n) && Closed(l') && |l'.parent| == |l.parent| && |nodes| > 0 && Distinct(nodes)
    requires sibs[n] == a + [n] + b && l.parent[n] == p
    requires Loose(l, sibs, Elems(nodes) - {n})
    requires Substituted(l, l', p, a, n, b, nodes)
    requires forall y :: y in nodes ==> y == n || y !in a + b
    requires forall q :: l.Node(q) && q != p ==> l'.first[q] == l.first[q] && l'.last[q] == l.last[q]
    requires l.Node(p) ==> l'.first[p] == At(a + nodes + b, 0) && l'.last[p] == At(a + nodes + b, |a + nodes + b| - 1)
    ensures Linked(l', Spliced(sibs, a + nodes + b, {n} - Elems(nodes)))
  {
    var s, t := a + [n] + b, a + nodes + b;
    var extra := Elems(nodes) - {n};
    ListFacts(l, sibs, n);
    SubstitutedRelisted(l, l', p, a, n, b, nodes);
    SubstitutedElems(a, n, b, nodes);
    SplicedLinked(l, sibs, l', p, s, extra, t, {n} - Elems(nodes));
  }

  lemma SubstitutedElems(a: seq<Ref>, n: Ref, b: seq<Ref>, nodes: seq<Ref>)
    requires Distinct(a + [n] + b)
    ensures var s, t, extra := a + [n] + b, a + nodes + b, Elems(nodes) - {n};
      && Elems(t) <= Elems(s) + extra && Elems(s) + extra == Elems(s) + Elems(nodes)
      && {n} - Elems(nodes) == Elems(s) + extra - Elems(t)
  {
    var s, t := a + [n] + b, a + nodes + b;
    assert Elems(s) == Elems(a) + {n} + Elems(b);
    assert Elems(t) == Elems(a) + Elems(nodes) + Elems(b);
    assert n !in a && n !in b by {
      assert forall i :: 0 <= i < |a| ==> s[i] == a[i] && s[|a|] == n;
      assert forall i :: 0 <= i < |b| ==> s[|a| + 1 + i] == b[i];
    }
  }

  // ----- the updates, step by step -----

  /** The parents once `nodes` stand in the place of `n`. */
  ghost function Reparented(parent: seq<Ref>, n: Ref, nodes: seq<Ref>): seq<Ref>
    requires 0 < n < |parent|
  {
    seq(|parent|, y requires 0 <= y < |parent| => if y in nodes then parent[n] else if y == n then NIL else parent[y])
  }

  /** `f'` is `f` with `vals` written at the first nodes of `nodes`. */
  ghost predicate Written(f: seq<Ref>, f': seq<Ref>, nodes: seq<Ref>, vals: seq<Ref>) {
    && |f'| == |f| && |vals| <= |nodes|
    && (forall j :: 0 <= j < |nodes| ==> 0 < nodes[j] < |f|)
    && (forall j {:trigger f'[nodes[j]]} :: 0 <= j < |vals| ==> f'[nodes[j]] == vals[j])
    && (forall y {:trigger f'[y]} :: 0 < y < |f| && y !in nodes[..|vals|] ==> f'[y] == f[y])
  }

  lemma WrittenMore(f: seq<Ref>, f': seq<Ref>, nodes: seq<Ref>, vals: seq<Ref>, v: Ref)
    requires Written(f, f', nodes, vals) && Distinct(nodes) && |vals| < |nodes|
    ensures Written(f, f'[nodes[|vals|] := v], nodes, vals + [v])
  {
    var i := |vals|;
    assert nodes[..i + 1] == nodes[..i] + [nodes[i]];
    forall j | 0 <= j <= i ensures f'[nodes[i] := v][nodes[j]] == (vals + [v])[j] {
      if j < i {
        assert f'[nodes[j]] == vals[j];
      }
    }
  }

  lemma WrittenFirst(f: seq<Ref>, f': seq<Ref>, nodes: seq<Ref>, v: Ref)
    requires nodes != [] && (forall j :: 0 <= j < |nodes| ==> 0 < nodes[j] < |f|) && f' == f[nodes[0] := v]
    ensures Written(f, f', nodes, [v])
  {
    assert nodes[..1] == [nodes[0]];
  }

  ghost function NextPatched(l: Links, n: Ref, cur: Ref): seq<Ref>
    requires Closed(l) && l.Node(n)
  {
    if l.prev[n] != NIL then l.next[l.prev[n] := cur] else l.next
  }

  /** The fields once the first `i` operands are linked to each other and to what precedes `n`. */
  ghost predicate OperandsChained(l: Links, l': Links, n: Ref, p: Ref, nodes: seq<Ref>, i: nat)
    requires Closed(l) && Closed(l') && |l'.parent| == |l.parent| && l.Node(n) && 0 < i <= |nodes|
  {
    && Written(l.parent, l'.parent, nodes, seq(i, _ => p))
    && Written(l.prev, l'.prev, nodes, [l.prev[n]] + nodes[..i - 1])
    && Written(NextPatched(l, n, nodes[0]), l'.next, nodes, nodes[1..i])
  }

  ghost function FirstPatched(l: Links, n: Ref, cur: Ref): Links
    requires Closed(l) && l.Node(n) && l.Node(cur)
  {
    var p, before := l.parent[n], l.prev[n];
    Links(
      if p != NIL then l.parent[cur := p] else l.parent,
      if p != NIL && l.first[p] == n then l.first[p := cur] else l.first,
      if p != NIL && l.last[p] == n then l.last[p := cur] else l.last,
      if before != NIL then l.next[before := cur] else l.next,
      if before != NIL then l.prev[cur := before] else l.prev)
  }

  ghost function LinkedBehind(l: Links, last: Ref, c: Ref): Links
    requires Closed(l) && l.Node(last) && l.Node(c)
  {
    l.(parent := l.parent[c := l.parent[last]], prev := l.prev[c := last], next := l.next[last := c])
  }

  ghost function TailLinked(l: Links, n: Ref, nodes: seq<Ref>, p: Ref, last: Ref, afterN: Ref): Links
    requires Closed(l) && l.Node(n) && l.Node(last) && (afterN == NIL || l.Node(afterN)) && (p == NIL || l.Node(p))
  {
    var next := l.next[last := afterN];
    var prev := if afterN != NIL then l.prev[afterN := last] else l.prev;
    l.(last := if afterN == NIL && |nodes| > 1 && p != NIL then l.last[p := last] else l.last,
       parent := if n in nodes then l.parent else l.parent[n := NIL],
       next := if n in nodes then next else next[n := NIL],
       prev := if n in nodes then prev else prev[n := NIL])
  }

  ghost function LastPatched(l: Links, n: Ref, nodes: seq<Ref>): seq<Ref>
    requires Closed(l) && l.Node(n) && nodes != [] && l.Node(nodes[0])
  {
    var f := FirstPatched(l, n, nodes[0]).last;
    if l.next[n] == NIL && |nodes| > 1 && l.parent[n] != NIL then f[l.parent[n] := nodes[|nodes| - 1]] else f
  }

  lemma SplicedEndsAt(a: seq<Ref>, n: Ref, b: seq<Ref>, nodes: seq<Ref>)
    requires nodes != []
    ensures var s, t := a + [n] + b, a + nodes + b;
      && At(t, 0) == (if a == [] then nodes[0] else At(s, 0))
      && At(t, |t| - 1) == (if b == [] then nodes[|nodes| - 1] else At(s, |s| - 1))
      && (a == [] ==> At(s, 0) == n) && (b == [] ==> At(s, |s| - 1) == n)
      && (a != [] ==> At(s, 0) == a[0]) && (b != [] ==> At(s, |s| - 1) == b[|b| - 1])
  {
  }

  lemma AnchorLinks(l: Links, p: Ref, a: seq<Ref>, n: Ref, b: seq<Ref>)
    requires Closed(l) && Chain(l, a + [n] + b, p)
    ensures l.Node(n) && n !in a + b && l.parent[n] == p
    ensures l.prev[n] == At(a, |a| - 1) && l.next[n] == At(b, 0)
  {
    var s := a + [n] + b;
    assert s[|a|] == n;
    assert l.parent[s[|a|]] == p && l.next[s[|a|]] == At(s, |a| + 1) && l.prev[s[|a|]] == At(s, |a| - 1);
    forall y | y in a + b ensures y != n {
      var k :| 0 <= k < |a + b| && (a + b)[k] == y;
      assert s[if k < |a| then k else k + 1] == y;
    }
  }

  /** The ends of the list of the replaced node. */
  lemma PatchedEnds(l: Links, p: Ref, a: seq<Ref>, n: Ref, b: seq<Ref>, nodes: seq<Ref>)
    requires Closed(l) && Chain(l, a + [n] + b, p) && nodes != [] && l.Node(nodes[0])
    requires l.Node(p) && l.Node(n) ==> l.first[p] == At(a + [n] + b, 0) && l.last[p] == At(a + [n] + b, |a| + |b|)
    ensures l.Node(n)
    ensures forall q :: l.Node(q) && q != p ==>
      FirstPatched(l, n, nodes[0]).first[q] == l.first[q] && LastPatched(l, n, nodes)[q] == l.last[q]
    ensures l.Node(p) ==> var t := a + nodes + b;
      FirstPatched(l, n, nodes[0]).first[p] == At(t, 0) && LastPatched(l, n, nodes)[p] == At(t, |t| - 1)
  {
    AnchorLinks(l, p, a, n, b);
    SplicedEndsAt(a, n, b, nodes);
    assert a != [] ==> a[0] == (a + b)[0];
    assert b != [] ==> b[|b| - 1] == (a + b)[|a + b| - 1];
    assert b != [] ==> l.Node((a + [n] + b)[|a| + 1]);
  }

  lemma FirstPatchedClosed(l: Links, n: Ref, cur: Ref)
    requires Closed(l) && l.Node(n) && l.Node(cur)
    ensures Closed(FirstPatched(l, n, cur)) && |FirstPatched(l, n, cur).parent| == |l.parent|
  {
  }

  lemma FirstPatchedChains(l: Links, n: Ref, nodes: seq<Ref>)
    requires Closed(l) && l.Node(n) && nodes != [] && l.Node(nodes[0]) && AllNodes(nodes, |l.parent|)
    requires nodes[0] == n || l.parent[nodes[0]] == l.prev[nodes[0]] == NIL
    ensures Closed(FirstPatched(l, n, nodes[0])) && |FirstPatched(l, n, nodes[0]).parent| == |l.parent|
    ensures OperandsChained(l, FirstPatched(l, n, nodes[0]), n, l.parent[n], nodes, 1)
  {
    var l1 := FirstPatched(l, n, nodes[0]);
    FirstPatchedClosed(l, n, nodes[0]);
    assert seq(1, _ => l.parent[n]) == [l.parent[n]] && [l.prev[n]] + nodes[..0] == [l.prev[n]] && nodes[1..1] == [];
    assert l1.parent == l.parent[nodes[0] := l.parent[n]];
    WrittenFirst(l.parent, l1.parent, nodes, l.parent[n]);
    assert l1.prev == l.prev[nodes[0] := l.prev[n]];
    WrittenFirst(l.prev, l1.prev, nodes, l.prev[n]);
  }

  lemma OneMoreChained(l: Links, l': Links, n: Ref, p: Ref, nodes: seq<Ref>, i: nat)
    requires Closed(l) && Closed(l') && |l'.parent| == |l.parent| && l.Node(n) && 0 < i < |nodes| && Distinct(nodes)
    requires AllNodes(nodes, |l.parent|)
    requires OperandsChained(l, l', n, p, nodes, i)
    ensures l.Node(nodes[i - 1]) && l.Node(nodes[i])
    ensures var l1 := LinkedBehind(l', nodes[i - 1], nodes[i]);
      Closed(l1) && |l1.parent| == |l.parent| && OperandsChained(l, l1, n, p, nodes, i + 1)
  {
    assert l'.parent[nodes[i - 1]] == seq(i, _ => p)[i - 1];
    WrittenMore(l.parent, l'.parent, nodes, seq(i, _ => p), p);
    assert seq(i, _ => p) + [p] == seq(i + 1, _ => p);
    WrittenMore(l.prev, l'.prev, nodes, [l.prev[n]] + nodes[..i - 1], nodes[i - 1]);
    assert [l.prev[n]] + nodes[..i - 1] + [nodes[i - 1]] == [l.prev[n]] + nodes[..i];
    WrittenMore(NextPatched(l, n, nodes[0]), l'.next, nodes, nodes[1..i], nodes[i]);
    assert nodes[1..i] + [nodes[i]] == nodes[1..i + 1];
  }

  lemma TailClosed(l: Links, n: Ref, nodes: seq<Ref>, p: Ref, last: Ref, afterN: Ref)
    requires Closed(l) && l.Node(n) && l.Node(last) && (afterN == NIL || l.Node(afterN)) && (p == NIL || l.Node(p))
    ensures var l1 := TailLinked(l, n, nodes, p, last, afterN); Closed(l1) && |l1.parent| == |l.parent|
  {
  }

  lemma TailParents(f: seq<Ref>, f': seq<Ref>, p: Ref, n: Ref, nodes: seq<Ref>)
    requires 0 < n < |f| && Written(f, f', nodes, seq(|nodes|, _ => p))
    ensures ParentsPlaced(f, if n in nodes then f' else f'[n := NIL], p, n, nodes)
  {
    assert nodes[..|nodes|] == nodes;
    forall j | 0 <= j < |nodes| ensures f'[nodes[j]] == p {
      assert f'[nodes[j]] == seq(|nodes|, _ => p)[j];
    }
  }

  lemma TailPrevs(f: seq<Ref>, f': seq<Ref>, before: Ref, after: Ref, n: Ref, nodes: seq<Ref>)
    requires 0 < n < |f| && nodes != [] && Written(f, f', nodes, [before] + nodes[..|nodes| - 1])
    requires 0 <= after < |f| && after !in nodes && after != n
    ensures var g := if after != NIL then f'[after := nodes[|nodes| - 1]] else f';
      PrevsPlaced(f, if n in nodes then g else g[n := NIL], before, after, n, nodes)
  {
    assert nodes[..|nodes|] == nodes;
    forall j | 0 <= j < |nodes| ensures f'[nodes[j]] == if j == 0 then before else nodes[j - 1] {
      assert f'[nodes[j]] == ([before] + nodes[..|nodes| - 1])[j];
    }
  }

  lemma TailNexts(f: seq<Ref>, f0: seq<Ref>, f': seq<Ref>, before: Ref, after: Ref, n: Ref, nodes: seq<Ref>)
    requires 0 < n < |f| && nodes != [] && Written(f0, f', nodes, nodes[1..]) && Distinct(nodes)
    requires 0 <= before < |f| && f0 == if before != NIL then f[before := nodes[0]] else f
    ensures var g := f'[nodes[|nodes| - 1] := after];
      NextsPlaced(f, if n in nodes then g else g[n := NIL], before, after, n, nodes)
  {
    assert nodes == nodes[..|nodes| - 1] + [nodes[|nodes| - 1]];
    forall j | 0 <= j < |nodes| - 1 ensures f'[nodes[j]] == nodes[j + 1] {
      assert f'[nodes[j]] == nodes[1..][j];
    }
  }

  lemma TailChains(l: Links, l': Links, p: Ref, a: seq<Ref>, n: Ref, b: seq<Ref>, nodes: seq<Ref>)
    requires Closed(l) && Closed(l') && |l'.parent| == |l.parent| && l.Node(n) && nodes != [] && Distinct(nodes)
    requires AllNodes(nodes, |l.parent|)
    requires (p == NIL || l.Node(p)) && l.prev[n] == At(a, |a| - 1) && l.next[n] == At(b, 0)
    requires OperandsChained(l, l', n, p, nodes, |nodes|)
    requires l.next[n] !in nodes && l.next[n] != n
    ensures l.Node(nodes[|nodes| - 1])
    ensures var l1 := TailLinked(l', n, nodes, p, nodes[|nodes| - 1], l.next[n]);
      Closed(l1) && |l1.parent| == |l.parent| && Substituted(l, l1, p, a, n, b, nodes)
  {
    var last := nodes[|nodes| - 1];
    var l1 := TailLinked(l', n, nodes, p, last, l.next[n]);
    TailClosed(l', n, nodes, p, last, l.next[n]);
    TailParents(l.parent, l'.parent, p, n, nodes);
    TailPrevs(l.prev, l'.prev, l.prev[n], l.next[n], n, nodes);
    assert nodes[1..|nodes|] == nodes[1..];
    TailNexts(l.next, NextPatched(l, n, nodes[0]), l'.next, l.prev[n], l.next[n], n, nodes);
  }

  lemma OperandsApart(l: Links, sibs: seq<seq<Ref>>, n: Ref, a: seq<Ref>, b: seq<Ref>, nodes: seq<Ref>)
    requires Linked(l, sibs) && l.Node(n) && sibs[n] == a + [n] + b && Loose(l, sibs, Elems(nodes) - {n})
    ensures n !in a + b
    ensures forall m :: m in nodes && m != n ==> m !in a + b && l.Node(m) && l.parent[m] == l.prev[m] == l.next[m] == NIL
  {
    ListFacts(l, sibs, n);
    AnchorLinks(l, l.parent[n], a, n, b);
    forall m | m in nodes && m != n
      ensures m !in a + b && l.Node(m) && l.parent[m] == l.prev[m] == l.next[m] == NIL
    {
      assert m in Elems(nodes) - {n};
      LooseLinks(l, sibs, m);
      forall y | y in a + b ensures y in sibs[n] && sibs[y] == sibs[n] {
        assert y in sibs[n];
      }
      assert n in sibs[n];
    }
  }

  lemma SpliceReady(l: Links, sibs: seq<seq<Ref>>, n: Ref, a: seq<Ref>, b: seq<Ref>, nodes: seq<Ref>)
    requires Linked(l, sibs) && l.Node(n) && sibs[n] == a + [n] + b && Loose(l, sibs, Elems(nodes) - {n})
    requires nodes != [] && forall m :: m in nodes ==> l.Node(m)
    ensures AllNodes(nodes, |l.parent|) && forall y :: y in nodes ==> y == n || y !in a + b
    ensures l.prev[n] == At(a, |a| - 1) && l.next[n] == At(b, 0)
    ensures l.prev[n] != n && l.next[n] != n && l.next[n] !in nodes
    ensures nodes[0] == n || l.parent[nodes[0]] == l.prev[nodes[0]] == NIL
  {
    ListFacts(l, sibs, n);
    AnchorLinks(l, l.parent[n], a, n, b);
    OperandsApart(l, sibs, n, a, b, nodes);
    assert nodes[0] in nodes;
    forall j | 0 <= j < |nodes| ensures 0 < nodes[j] < |l.parent| {
      assert nodes[j] in nodes;
    }
    if b != [] {
      assert b[0] in a + b;
    }
    assert a != [] ==> a[|a| - 1] in a + b;
  }

  lemma ReparentedIs(f: seq<Ref>, f': seq<Ref>, n: Ref, nodes: seq<Ref>)
    requires 0 < n < |f| == |f'| && f[NIL] == f'[NIL] == NIL && ParentsPlaced(f, f', f[n], n, nodes) && NIL !in nodes
    ensures f' == Reparented(f, n, nodes)
  {
    forall y | 0 <= y < |f| ensures f'[y] == Reparented(f, n, nodes)[y] {
      if y in nodes {
        var j :| 0 <= j < |nodes| && nodes[j] == y;
        assert f'[nodes[j]] == f[n];
      }
    }
  }

  lemma SplicedRooted(parent: seq<Ref>, parent': seq<Ref>, n: Ref, nodes: seq<Ref>)
    requires Rooted(parent) && 0 < n < |parent| == |parent'| && 0 <= parent[n] < |parent|
    requires NoneAbove(parent, parent[n], Elems(nodes) - {n})
    requires forall y :: 0 < y < |parent| ==>
      parent'[y] == if y in nodes then parent[n] else if y == n then NIL else parent[y]
    ensures Rooted(parent')
  {
    var d := Elems(nodes) - {n};
    var mid := seq(|parent|, y requires 0 <= y < |parent| => if y in d then parent[n] else parent[y]);
    LinkKeepsRooted(parent, mid, d, parent[n]);
    CutKeepsRooted(mid, parent');
  }

  /** The spliced links are a forest again. */
  lemma SpliceDone(l: Links, sibs: seq<seq<Ref>>, l': Links, kind: seq<Kind>, a: seq<Ref>, n: Ref, b: seq<Ref>, nodes: seq<Ref>)
    requires Linked(l, sibs) && Rooted(l.parent) && BareLeaves(l, kind) && l.Node(n) && sibs[n] == a + [n] + b
    requires Closed(l') && |l'.parent| == |l.parent|
    requires nodes != [] && Distinct(nodes) && AllNodes(nodes, |l.parent|)
    requires Loose(l, sibs, Elems(nodes) - {n}) && NoneAbove(l.parent, l.parent[n], Elems(nodes) - {n})
    requires forall y :: y in nodes ==> y == n || y !in a + b
    requires Substituted(l, l', l.parent[n], a, n, b, nodes)
    requires l'.first == FirstPatched(l, n, nodes[0]).first && l'.last == LastPatched(l, n, nodes)
    ensures Linked(l', Spliced(sibs, a + nodes + b, {n} - Elems(nodes)))
    ensures Rooted(l'.parent) && BareLeaves(l', kind) && l'.parent == Reparented(l.parent, n, nodes)
  {
    var p := l.parent[n];
    ListFacts(l, sibs, n);
    PatchedEnds(l, p, a, n, b, nodes);
    SubstitutedLinked(l, sibs, l', p, a, n, b, nodes);
    ReparentedIs(l.parent, l'.parent, n, nodes);
    SplicedRooted(l.parent, l'.parent, n, nodes);
    assert l.Node(p) ==> l.first[p] == (a + [n] + b)[0];
  }
}
