/** What a linked forest looks like from its links alone. */
module DomForest {
  import opened Sequences
  import opened DomLinks
  import opened DomGraph
  import opened DomWalk
  import opened DomCycles
  import opened DomSplice

  // ----- owned child links in a forest -----

  lemma {:induction false} NthInForest(l: Links, sibs: seq<seq<Ref>>, p: Ref, k: nat)
    requires Linked(l, sibs) && l.Node(p)
    ensures Nth(l, p, k) == At(Kids(l, sibs, p), k)
  {
    var ks := Kids(l, sibs, p);
    assert Ends(l, sibs, p);
    if k > 0 {
      NthInForest(l, sibs, p, k - 1);
      if k - 1 < |ks| {
        KidsHaveParent(l, sibs, p);
        assert ks[k - 1] in ks;
        assert Chain(l, sibs[ks[k - 1]], l.parent[ks[k - 1]]);
        assert l.next[ks[k - 1]] == At(ks, k);
      }
    }
  }

  /** In a forest the owned children of `p` are the nodes whose parent is `p`. */
  lemma OwnedInForest(l: Links, sibs: seq<seq<Ref>>, p: Ref, c: Ref)
    requires Linked(l, sibs) && l.Node(p)
    ensures OwnedChild(l, p, c) <==> l.Node(c) && l.parent[c] == p
  {
    var ks := Kids(l, sibs, p);
    assert Ends(l, sibs, p);
    if OwnedChild(l, p, c) {
      var k: nat :| Nth(l, p, k) == c;
      NthInForest(l, sibs, p, k);
    }
    if l.Node(c) && l.parent[c] == p {
      var k :| 0 <= k < |ks| && ks[k] == c;
      NthInForest(l, sibs, p, k);
    }
  }

  /** In a forest a node reaches down to exactly the nodes it is above. */
  lemma {:induction false} TrailGoesDown(l: Links, sibs: seq<seq<Ref>>, path: seq<Ref>)
    requires Linked(l, sibs) && Trail(l, path)
    ensures Up(l.parent, path[|path| - 1], |path| - 1) == path[0]
  {
    if |path| > 1 {
      var n := |path| - 1;
      var init := path[..n];
      assert forall i :: 0 <= i < |init| - 1 ==> OwnedChild(l, path[i], path[i + 1]);
      TrailGoesDown(l, sibs, init);
      assert OwnedChild(l, path[n - 1], path[n - 1 + 1]);
      OwnedInForest(l, sibs, path[n - 1], path[n]);
    }
  }

  /** In a forest `wouldCreateCycle` holds exactly when `cur` is `p` or an ancestor of `p`. */
  lemma CycleGuardInForest(l: Links, sibs: seq<seq<Ref>>, p: Ref, cur: Ref)
    requires Linked(l, sibs) && l.Node(cur) && (p == NIL || l.Node(p))
    ensures (Above(l.parent, p, cur) || (p != NIL && Reaches(l, cur, p))) <==> Above(l.parent, p, cur)
  {
    if p != NIL && Reaches(l, cur, p) {
      var path :| TrailBetween(l, cur, p, path);
      TrailGoesDown(l, sibs, path);
    }
  }

  // ----- the laws of a forest, stated on the links -----

  /** What a forest means for the links of one node, with no mention of the sibling lists. */
  ghost predicate NodeLaws(l: Links, x: Ref)
    requires Closed(l) && l.Node(x)
  {
    // reciprocal sibling links, within one parent
    && (l.next[x] != NIL ==> l.prev[l.next[x]] == x && l.parent[l.next[x]] == l.parent[x])
    && (l.prev[x] != NIL ==> l.next[l.prev[x]] == x && l.parent[l.prev[x]] == l.parent[x])
    // the parent enumerates the node, and its first and last children are the true ends
    && (l.parent[x] != NIL ==>
      && OwnedChild(l, l.parent[x], x)
      && (l.prev[x] == NIL <==> l.first[l.parent[x]] == x)
      && (l.next[x] == NIL <==> l.last[l.parent[x]] == x))
    // the children the node enumerates are its own
    && (forall c {:trigger OwnedChild(l, x, c)} :: OwnedChild(l, x, c) ==> l.Node(c) && l.parent[c] == x)
    && (l.first[x] == NIL <==> l.last[x] == NIL)
    // no cycle
    && (forall k: nat {:trigger Up(l.parent, x, k)} :: k > 0 ==> Up(l.parent, x, k) != x)
  }

  lemma NodeLawsHold(l: Links, sibs: seq<seq<Ref>>, x: Ref)
    requires Linked(l, sibs) && Rooted(l.parent) && l.Node(x)
    ensures NodeLaws(l, x)
  {
    SiblingLaws(l, sibs, x);
    if l.parent[x] != NIL {
      OwnedInForest(l, sibs, l.parent[x], x);
    }
    forall c | OwnedChild(l, x, c) ensures l.Node(c) && l.parent[c] == x {
      OwnedInForest(l, sibs, x, c);
    }
    assert Ends(l, sibs, x);
    KidsHaveParent(l, sibs, x);
    var ks := Kids(l, sibs, x);
    assert ks != [] ==> ks[0] in ks && ks[|ks| - 1] in ks;
    forall k: nat | k > 0 ensures Up(l.parent, x, k) != x {
      NoNodeAboveItself(l.parent, x, k);
    }
  }

  lemma SiblingLaws(l: Links, sibs: seq<seq<Ref>>, x: Ref)
    requires Linked(l, sibs) && l.Node(x)
    ensures l.next[x] != NIL ==> l.prev[l.next[x]] == x && l.parent[l.next[x]] == l.parent[x]
    ensures l.prev[x] != NIL ==> l.next[l.prev[x]] == x && l.parent[l.prev[x]] == l.parent[x]
    ensures l.parent[x] != NIL ==>
      (l.prev[x] == NIL <==> l.first[l.parent[x]] == x) && (l.next[x] == NIL <==> l.last[l.parent[x]] == x)
  {
    ListFacts(l, sibs, x);
    var s := sibs[x];
    var k :| 0 <= k < |s| && s[k] == x;
    assert l.next[s[k]] == At(s, k + 1) && l.prev[s[k]] == At(s, k - 1);
    assert forall i :: 0 <= i < |s| ==> s[i] in s && l.Node(s[i]);
    if k + 1 < |s| {
      assert l.prev[s[k + 1]] == At(s, k) && l.parent[s[k + 1]] == l.parent[x];
    }
    if k > 0 {
      assert l.next[s[k - 1]] == At(s, k) && l.parent[s[k - 1]] == l.parent[x];
    }
  }

  // ----- nodes without links -----

  /** Every node a list of its own. */
  ghost function Singles(n: nat): seq<seq<Ref>> {
    seq(n, x requires 0 <= x < n => if x == NIL then [] else [x])
  }

  ghost predicate Unset(f: seq<Ref>, n: nat) {
    |f| == n && forall x :: 0 <= x < n ==> f[x] == NIL
  }

  /** Nodes with no link among them are a forest. */
  lemma UnsetIsForest(l: Links, kind: seq<Kind>)
    requires |l.parent| > 0 && |kind| == |l.parent|
    requires var n := |l.parent|;
      Unset(l.parent, n) && Unset(l.first, n) && Unset(l.last, n) && Unset(l.next, n) && Unset(l.prev, n)
    ensures Linked(l, Singles(|l.parent|)) && Rooted(l.parent) && BareLeaves(l, kind)
  {
    var sibs := Singles(|l.parent|);
    forall x | l.Node(x)
      ensures InList(sibs, x) && Chain(l, sibs[x], l.parent[x]) && Ends(l, sibs, x) && TopsOut(l.parent, x)
    {
      assert sibs[x] == [x];
      assert Up(l.parent, x, 1) == NIL;
    }
  }

  // ----- the children after a replacement -----

  ghost predicate Replaced(sibs: seq<seq<Ref>>, sibs': seq<seq<Ref>>, n: Ref, nodes: seq<Ref>)
    requires 0 <= n < |sibs|
  {
    var d, s := Elems(nodes) - {n}, sibs[n];
    sibs' == Spliced(Detached(sibs, d), Without(Before(s, n), d) + nodes + Without(After(s, n), d), {n} - Elems(nodes))
  }

  lemma ReplaceOwnList(l: Links, sibs: seq<seq<Ref>>, l': Links, sibs': seq<seq<Ref>>, n: Ref, nodes: seq<Ref>)
    requires Linked(l, sibs) && Linked(l', sibs') && |l'.parent| == |l.parent| && l.Node(n) && l.parent[n] != NIL
    requires nodes != [] && (forall m :: m in nodes ==> l.Node(m)) && l'.parent == Reparented(l.parent, n, nodes)
    requires Replaced(sibs, sibs', n, nodes)
    ensures var d, ks := Elems(nodes) - {n}, Kids(l, sibs, l.parent[n]);
      Kids(l', sibs', l.parent[n]) == Without(Before(ks, n), d) + nodes + Without(After(ks, n), d)
  {
    var p, d, s := l.parent[n], Elems(nodes) - {n}, sibs[n];
    ListFacts(l, sibs, n);
    assert Ends(l, sibs, p);
    SplicedMembers(s, n, nodes);
    var t := Without(Before(s, n), d) + nodes + Without(After(s, n), d);
    assert t[0] in t;
    forall y | l.Node(y) ensures l'.parent[y] == p <==> y in t {
      assert l'.parent[y] == if y in nodes then p else if y == n then NIL else l.parent[y];
    }
    KidsAre(l', sibs', p, t);
  }

  lemma ReplaceOtherList(l: Links, sibs: seq<seq<Ref>>, l': Links, sibs': seq<seq<Ref>>, n: Ref, nodes: seq<Ref>, q: Ref)
    requires Linked(l, sibs) && Linked(l', sibs') && |l'.parent| == |l.parent| && l.Node(n) && l.Node(q) && q != l.parent[n]
    requires nodes != [] && (forall m :: m in nodes ==> l.Node(m)) && l'.parent == Reparented(l.parent, n, nodes)
    requires Replaced(sibs, sibs', n, nodes)
    ensures Kids(l', sibs', q) == Without(Kids(l, sibs, q), Elems(nodes) - {n})
  {
    var d, s := Elems(nodes) - {n}, sibs[n];
    var r := Without(Kids(l, sibs, q), d);
    ListFacts(l, sibs, n);
    SplicedMembers(s, n, nodes);
    OtherKids(l, sibs, n, q);
    if r != [] {
      assert r[0] in r;
    }
    forall y | l.Node(y) ensures l'.parent[y] == q <==> y in r {
      assert l'.parent[y] == if y in nodes then l.parent[n] else if y == n then NIL else l.parent[y];
    }
    KidsAre(l', sibs', q, r);
  }

  lemma OtherKids(l: Links, sibs: seq<seq<Ref>>, n: Ref, q: Ref)
    requires Linked(l, sibs) && l.Node(n) && l.Node(q) && q != l.parent[n]
    ensures forall y :: l.Node(y) ==> (l.parent[y] == q <==> y in Kids(l, sibs, q))
    ensures forall y :: y in Kids(l, sibs, q) ==> l.Node(y) && y != n && y !in sibs[n] && sibs[y] == Kids(l, sibs, q)
  {
    ListFacts(l, sibs, n);
    KidsHaveParent(l, sibs, q);
    assert Ends(l, sibs, q);
  }

  /** `Replace` splices the operands into the child list of the parent and takes them out of every other list. */
  lemma ReplaceChildren(l: Links, sibs: seq<seq<Ref>>, l': Links, sibs': seq<seq<Ref>>, n: Ref, nodes: seq<Ref>, q: Ref)
    requires Linked(l, sibs) && Linked(l', sibs') && |l'.parent| == |l.parent| && l.Node(n) && l.Node(q)
    requires nodes != [] && (forall m :: m in nodes ==> l.Node(m)) && l'.parent == Reparented(l.parent, n, nodes)
    requires Replaced(sibs, sibs', n, nodes)
    ensures var d, ks := Elems(nodes) - {n}, Kids(l, sibs, q);
      Kids(l', sibs', q) ==
        if q == l.parent[n] then Without(Before(ks, n), d) + nodes + Without(After(ks, n), d) else Without(ks, d)
  {
    if q == l.parent[n] {
      ReplaceOwnList(l, sibs, l', sibs', n, nodes);
    } else {
      ReplaceOtherList(l, sibs, l', sibs', n, nodes, q);
    }
  }

  lemma SplicedMembers(s: seq<Ref>, n: Ref, nodes: seq<Ref>)
    requires n in s && Distinct(s) && nodes != []
    ensures var d := Elems(nodes) - {n};
      var t := Without(Before(s, n), d) + nodes + Without(After(s, n), d);
      t != [] && forall y :: y in t <==> y in nodes || (y in s && y != n)
  {
    CutAt(s, n);
    var a, b := Before(s, n), After(s, n);
    assert s == a + [n] + b;
    assert forall i :: 0 <= i < |a| ==> s[i] == a[i] && s[|a|] == n;
    assert forall i :: 0 <= i < |b| ==> s[|a| + 1 + i] == b[i];
  }

  // ----- walking a forest -----

  /** No trail of a forest ties a loop. */
  lemma ForestHasNoTangle(l: Links, sibs: seq<seq<Ref>>, x: Ref, trail: seq<Ref>)
    requires Linked(l, sibs) && Rooted(l.parent)
    ensures !Tangle(l, x, {}, trail)
  {
    if Tangle(l, x, {}, trail) {
      var end := trail[|trail| - 1];
      var k: nat :| Closes(l, end, {} + Elems(trail), k);
      var c := Nth(l, end, k);
      NthInForest(l, sibs, end, k);
      if c in trail {
        var j :| 0 <= j < |trail| && trail[j] == c;
        var rest := trail[j..];
        forall i | 0 <= i < |rest| - 1 ensures OwnedChild(l, rest[i], rest[i + 1]) {
          assert OwnedChild(l, trail[j + i], trail[j + i + 1]);
        }
        TrailGoesDown(l, sibs, rest);
        OwnedInForest(l, sibs, end, c);
        assert Up(l.parent, c, |rest|) == c;
        NoNodeAboveItself(l.parent, c, |rest|);
        assert false;
      } else {
        var j: nat :| j < k && Nth(l, end, j) == c;
        NthInForest(l, sibs, end, j);
        DistinctKids(l, sibs, end);
        assert false;
      }
    }
  }

  lemma DistinctKids(l: Links, sibs: seq<seq<Ref>>, p: Ref)
    requires Linked(l, sibs) && l.Node(p)
    ensures Distinct(Kids(l, sibs, p))
  {
    if l.first[p] != NIL {
      assert Chain(l, sibs[l.first[p]], l.parent[l.first[p]]);
    }
  }

  /** A node below two children of one parent shows they are the same. */
  lemma OneBranch(parent: seq<Ref>, y: Ref, a: Ref, b: Ref, j: nat, k: nat)
    requires Rooted(parent) && 0 < a < |parent| && 0 < b < |parent| && parent[a] == parent[b]
    requires 0 < parent[a] < |parent|
    requires Up(parent, y, j) == a && Up(parent, y, k) == b && j <= k
    ensures a == b
  {
    if j < k {
      UpSplit(parent, y, j, k - j);
      assert Up(parent, a, k - j) == b;
      assert Up(parent, parent[b], k - j - 1) == b;
      assert Up(parent, b, k - j) == b;
      NoNodeAboveItself(parent, b, k - j);
    }
  }

  /** `y` is below one of the children from the `i`-th on. */
  ghost predicate Below(l: Links, ks: seq<Ref>, i: nat, y: Ref) {
    exists j :: i <= j < |ks| && Above(l.parent, y, ks[j])
  }

  lemma BelowIsAbove(l: Links, sibs: seq<seq<Ref>>, x: Ref, y: Ref)
    requires Linked(l, sibs) && Rooted(l.parent) && l.Node(x) && Below(l, Kids(l, sibs, x), 0, y)
    ensures Above(l.parent, y, x) && y != x
  {
    var ks := Kids(l, sibs, x);
    KidsHaveParent(l, sibs, x);
    var j :| 0 <= j < |ks| && Above(l.parent, y, ks[j]);
    var k: nat :| Up(l.parent, y, k) == ks[j];
    assert ks[j] in ks;
    UpSplit(l.parent, y, k, 1);
    assert Up(l.parent, ks[j], 1) == Up(l.parent, x, 0) == x;
    assert Up(l.parent, y, k + 1) == x;
    if y == x {
      NoNodeAboveItself(l.parent, x, k + 1);
    }
  }

  lemma BelowNode(l: Links, sibs: seq<seq<Ref>>, x: Ref, y: Ref)
    requires Linked(l, sibs) && Rooted(l.parent) && l.Node(x) && l.Node(y)
    ensures Above(l.parent, y, x) <==> y == x || Below(l, Kids(l, sibs, x), 0, y)
    ensures !Below(l, Kids(l, sibs, x), 0, x)
  {
    var ks := Kids(l, sibs, x);
    assert Ends(l, sibs, x);
    assert Up(l.parent, y, 0) == y;
    if y != x && Above(l.parent, y, x) {
      var k: nat :| Up(l.parent, y, k) == x;
      UpSplit(l.parent, y, k - 1, 1);
      var c := Up(l.parent, y, k - 1);
      assert Up(l.parent, c, 1) == x;
      assert l.Node(c) && l.parent[c] == x && c in ks;
      var j :| 0 <= j < |ks| && ks[j] == c;
      assert Above(l.parent, y, ks[j]);
    }
    if Below(l, ks, 0, y) {
      BelowIsAbove(l, sibs, x, y);
    }
    if Below(l, ks, 0, x) {
      BelowIsAbove(l, sibs, x, x);
    }
  }

  lemma BelowOnce(l: Links, sibs: seq<seq<Ref>>, x: Ref, i: nat, y: Ref)
    requires Linked(l, sibs) && Rooted(l.parent) && l.Node(x) && i < |Kids(l, sibs, x)|
    ensures Below(l, Kids(l, sibs, x), i, y) <==> Above(l.parent, y, Kids(l, sibs, x)[i]) || Below(l, Kids(l, sibs, x), i + 1, y)
    ensures !(Above(l.parent, y, Kids(l, sibs, x)[i]) && Below(l, Kids(l, sibs, x), i + 1, y))
  {
    var ks := Kids(l, sibs, x);
    KidsHaveParent(l, sibs, x);
    DistinctKids(l, sibs, x);
    if Above(l.parent, y, ks[i]) && Below(l, ks, i + 1, y) {
      var j :| i + 1 <= j < |ks| && Above(l.parent, y, ks[j]);
      var m: nat :| Up(l.parent, y, m) == ks[i];
      var n: nat :| Up(l.parent, y, n) == ks[j];
      assert ks[i] in ks && ks[j] in ks;
      if m <= n {
        OneBranch(l.parent, y, ks[i], ks[j], m, n);
      } else {
        OneBranch(l.parent, y, ks[j], ks[i], n, m);
      }
    }
  }

  /** The nodes are under two children of one parent, that of `a` before that of `b`. */
  ghost predicate Branches(l: Links, sibs: seq<seq<Ref>>, p: Ref, i: nat, j: nat, a: Ref, b: Ref)
    requires Linked(l, sibs) && l.Node(p)
  {
    i < j < |Kids(l, sibs, p)| && Above(l.parent, a, Kids(l, sibs, p)[i]) && Above(l.parent, b, Kids(l, sibs, p)[j])
  }

  /** Document order: `a` is above `b`, or under an earlier child of some node than `b`. */
  ghost predicate Precedes(l: Links, sibs: seq<seq<Ref>>, a: Ref, b: Ref)
    requires Linked(l, sibs)
  {
    (a != b && Above(l.parent, b, a)) || exists p, i: nat, j: nat :: l.Node(p) && Branches(l, sibs, p, i, j, a, b)
  }

  ghost predicate InOrder(l: Links, sibs: seq<seq<Ref>>, s: seq<Ref>)
    requires Linked(l, sibs)
  {
    forall i, j :: 0 <= i < j < |s| ==> Precedes(l, sibs, s[i], s[j])
  }

  lemma OrderAppend(l: Links, sibs: seq<seq<Ref>>, s: seq<Ref>, t: seq<Ref>)
    requires Linked(l, sibs) && InOrder(l, sibs, s) && InOrder(l, sibs, t)
    requires forall a, b :: a in s && b in t ==> Precedes(l, sibs, a, b)
    ensures InOrder(l, sibs, s + t)
  {
    hide Precedes;
  }

  /** What is under one child comes before what is under later ones. */
  lemma BranchesInOrder(l: Links, sibs: seq<seq<Ref>>, x: Ref, i: nat, a: Ref, b: Ref)
    requires Linked(l, sibs) && l.Node(x) && i < |Kids(l, sibs, x)|
    requires Above(l.parent, a, Kids(l, sibs, x)[i]) && Below(l, Kids(l, sibs, x), i + 1, b)
    ensures Precedes(l, sibs, a, b)
  {
    var j :| i + 1 <= j < |Kids(l, sibs, x)| && Above(l.parent, b, Kids(l, sibs, x)[j]);
    assert Branches(l, sibs, x, i, j, a, b);
  }

  lemma {:induction false} VisitsSubtree(
    l: Links, sibs: seq<seq<Ref>>, fails: Visitor, x: Ref, path: set<Ref>, log: seq<Ref>) returns (sub: seq<Ref>)
    requires Linked(l, sibs) && Rooted(l.parent) && l.Node(x) && x !in path
    requires Visit(l, fails, x, path, log).status == Done
    ensures Visit(l, fails, x, path, log).log == log + sub && Distinct(sub)
    ensures forall y :: y in sub <==> l.Node(y) && Above(l.parent, y, x)
    ensures InOrder(l, sibs, sub)
    decreases Nodes(l) - path, 0
  {
    hide Branches;
    assert Seen(l, x, 0) == {};
    var rest := VisitsBranches(l, sibs, fails, x, 0, path + {x}, log + [x]);
    sub := [x] + rest;
    assert log + sub == log + [x] + rest;
    forall y | l.Node(y) ensures y in sub <==> Above(l.parent, y, x) {
      BelowNode(l, sibs, x, y);
    }
    BelowNode(l, sibs, x, x);
    assert x !in rest;
    DistinctAppend([x], rest);
    forall a, b | a in [x] && b in rest ensures Precedes(l, sibs, a, b) {
      BelowNode(l, sibs, x, b);
    }
    OrderAppend(l, sibs, [x], rest);
  }

  lemma {:induction false} VisitsBranches(
    l: Links, sibs: seq<seq<Ref>>, fails: Visitor, x: Ref, i: nat, path: set<Ref>, log: seq<Ref>) returns (sub: seq<Ref>)
    requires Linked(l, sibs) && Rooted(l.parent) && l.Node(x)
    requires VisitList(l, fails, x, Nth(l, x, i), Seen(l, x, i), path, log).status == Done
    ensures VisitList(l, fails, x, Nth(l, x, i), Seen(l, x, i), path, log).log == log + sub && Distinct(sub)
    ensures forall y :: y in sub <==> l.Node(y) && Below(l, Kids(l, sibs, x), i, y)
    ensures InOrder(l, sibs, sub)
    decreases Nodes(l) - path, 1, Nodes(l) - Seen(l, x, i)
  {
    hide Precedes, InOrder;
    var ks := Kids(l, sibs, x);
    NthInForest(l, sibs, x, i);
    KidsHaveParent(l, sibs, x);
    assert i < |ks| ==> ks[i] in ks;
    if i >= |ks| {
      sub := [];
      NothingInOrder(l, sibs);
    } else {
      var r := Visit(l, fails, ks[i], path, log);
      var head := VisitsSubtree(l, sibs, fails, ks[i], path, log);
      SeenGrows(l, x, i);
      var tail := VisitsBranches(l, sibs, fails, x, i + 1, path, r.log);
      sub := head + tail;
      assert log + sub == log + head + tail;
      forall y | l.Node(y)
        ensures y in sub <==> Below(l, ks, i, y)
        ensures !(y in head && y in tail)
      {
        BelowOnce(l, sibs, x, i, y);
      }
      forall j, k | 0 <= j < |head| && 0 <= k < |tail| ensures head[j] != tail[k] {
        assert head[j] in head && tail[k] in tail;
      }
      DistinctAppend(head, tail);
      forall a, b | a in head && b in tail ensures Precedes(l, sibs, a, b) {
        BranchesInOrder(l, sibs, x, i, a, b);
      }
      OrderAppend(l, sibs, head, tail);
    }
  }

  lemma NothingInOrder(l: Links, sibs: seq<seq<Ref>>)
    requires Linked(l, sibs)
    ensures InOrder(l, sibs, [])
  {
  }

  /** On a forest, `Walk` succeeds and visits the root and its descendants, each exactly once, in document order. */
  lemma WalkOfForest(l: Links, sibs: seq<seq<Ref>>, fails: Visitor, x: Ref)
    requires Linked(l, sibs) && Rooted(l.parent) && l.Node(x) && Silent(fails)
    ensures var r := Visit(l, fails, x, {}, []);
      && r.status == Done && Distinct(r.log)
      && InOrder(l, sibs, r.log)
      && forall y :: y in r.log <==> l.Node(y) && Above(l.parent, y, x)
  {
    CycleExactly(l, fails, x);
    forall trail ensures !Tangle(l, x, {}, trail) {
      ForestHasNoTangle(l, sibs, x, trail);
    }
    var sub := VisitsSubtree(l, sibs, fails, x, {}, []);
    assert [] + sub == sub;
  }
}
