/**
 * Child links as a graph. Nothing here assumes a forest: the links may be shared, foreign or cyclic, as
 * long as each points at a node.
 */
module DomGraph {
  import opened DomLinks

  /** The sibling after `c` in the child list of `owner`; a child owned by another node ends the list. */
  ghost function OwnedNext(l: Links, owner: Ref, c: Ref): Ref
    requires 0 <= c < |l.parent| && 0 <= c < |l.next|
  {
    if l.parent[c] == owner then l.next[c] else NIL
  }

  /** The `k`-th child met when enumerating the child list of `owner`. */
  ghost function Nth(l: Links, owner: Ref, k: nat): (c: Ref)
    requires Closed(l) && l.Node(owner)
    ensures c == NIL || l.Node(c)
  {
    if k == 0 then l.first[owner]
    else
      var c := Nth(l, owner, k - 1);
      if c == NIL then NIL else OwnedNext(l, owner, c)
  }

  ghost predicate OwnedChild(l: Links, owner: Ref, c: Ref)
    requires Closed(l) && l.Node(owner)
  {
    c != NIL && exists k: nat :: Nth(l, owner, k) == c
  }

  /** A walk down owned child links. */
  ghost predicate Trail(l: Links, path: seq<Ref>)
    requires Closed(l)
  {
    && 0 < |path|
    && (forall i :: 0 <= i < |path| ==> l.Node(path[i]))
    && (forall i :: 0 <= i < |path| - 1 ==> OwnedChild(l, path[i], path[i + 1]))
  }

  ghost predicate TrailBetween(l: Links, x: Ref, y: Ref, path: seq<Ref>)
    requires Closed(l)
  {
    Trail(l, path) && path[0] == x && path[|path| - 1] == y
  }

  ghost predicate Reaches(l: Links, x: Ref, y: Ref)
    requires Closed(l)
  {
    exists path :: TrailBetween(l, x, y, path)
  }

  lemma ReachesSelf(l: Links, x: Ref)
    requires Closed(l) && l.Node(x)
    ensures Reaches(l, x, x)
  {
    assert TrailBetween(l, x, x, [x]);
  }

  lemma ReachesStep(l: Links, x: Ref, y: Ref, z: Ref)
    requires Closed(l) && l.Node(y) && l.Node(z) && Reaches(l, x, y) && OwnedChild(l, y, z)
    ensures Reaches(l, x, z)
  {
    var path :| TrailBetween(l, x, y, path);
    var longer := path + [z];
    forall i | 0 <= i < |longer| - 1 ensures OwnedChild(l, longer[i], longer[i + 1]) {
      if i < |path| - 1 {
        assert OwnedChild(l, path[i], path[i + 1]);
      }
    }
    assert TrailBetween(l, x, z, longer);
  }

  /** A set that holds the first child and is closed under the owned-sibling step holds every child. */
  lemma {:induction false} ClosedUnderNext(l: Links, owner: Ref, seen: set<Ref>, k: nat)
    requires Closed(l) && l.Node(owner)
    requires l.first[owner] == NIL || l.first[owner] in seen
    requires forall c :: c in seen && l.Node(c) ==> OwnedNext(l, owner, c) == NIL || OwnedNext(l, owner, c) in seen
    ensures Nth(l, owner, k) == NIL || Nth(l, owner, k) in seen
  {
    if k > 0 {
      ClosedUnderNext(l, owner, seen, k - 1);
    }
  }

  /** A set closed under owned children that holds the start of a trail holds its end. */
  lemma {:induction false} ClosedUnderChildren(l: Links, s: set<Ref>, path: seq<Ref>)
    requires Closed(l) && Trail(l, path) && path[0] in s
    requires forall x, c :: x in s && l.Node(x) && l.Node(c) && OwnedChild(l, x, c) ==> c in s
    ensures path[|path| - 1] in s
  {
    if |path| > 1 {
      assert OwnedChild(l, path[0], path[1]);
      var rest := path[1..];
      forall i | 0 <= i < |rest| - 1 ensures OwnedChild(l, rest[i], rest[i + 1]) {
        assert OwnedChild(l, path[i + 1], path[i + 2]);
      }
      ClosedUnderChildren(l, s, rest);
    }
  }

  /** A childless node reaches only itself. */
  lemma NoChildNoTrail(l: Links, x: Ref, y: Ref)
    requires Closed(l) && l.Node(x) && l.first[x] == NIL && x != y
    ensures !Reaches(l, x, y)
  {
    if Reaches(l, x, y) {
      var path :| TrailBetween(l, x, y, path);
      assert OwnedChild(l, path[0], path[1]);
      var k: nat :| Nth(l, x, k) == path[1];
      ClosedUnderNext(l, x, {}, k);
      assert false;
    }
  }
}
