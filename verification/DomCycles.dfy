/** When `Walk` reports a cycle, and what it visits when it does not. */
module DomCycles {
  import opened Sequences
  import opened DomLinks
  import opened DomGraph
  import opened DomWalk

  ghost predicate Silent(fails: Visitor) {
    forall log: seq<Ref> :: !fails(log)
  }

  /** The `k`-th child of `owner` is on `path`, or came up before in the same list. */
  ghost predicate Closes(l: Links, owner: Ref, path: set<Ref>, k: nat)
    requires Closed(l) && l.Node(owner)
  {
    var c := Nth(l, owner, k);
    c != NIL && (c in path || exists j: nat :: j < k && Nth(l, owner, j) == c)
  }

  ghost predicate ClosesSomewhere(l: Links, owner: Ref, path: set<Ref>)
    requires Closed(l) && l.Node(owner)
  {
    exists k: nat {:trigger Nth(l, owner, k)} :: Closes(l, owner, path, k)
  }

  /** A trail from `x`, clear of `path` and of itself, whose last node has a child that closes a loop. */
  ghost predicate Tangle(l: Links, x: Ref, path: set<Ref>, trail: seq<Ref>)
    requires Closed(l)
  {
    && Trail(l, trail) && trail[0] == x && Distinct(trail) && Elems(trail) !! path
    && ClosesSomewhere(l, trail[|trail| - 1], path + Elems(trail))
  }

  /** The first `i` children of `owner`. */
  ghost function Seen(l: Links, owner: Ref, i: nat): set<Ref>
    requires Closed(l) && l.Node(owner)
  {
    set j | 0 <= j < i :: Nth(l, owner, j)
  }

  lemma SeenGrows(l: Links, owner: Ref, i: nat)
    requires Closed(l) && l.Node(owner)
    ensures Seen(l, owner, i + 1) == Seen(l, owner, i) + {Nth(l, owner, i)}
  {
  }

  lemma {:induction false} EarlierChildren(l: Links, owner: Ref, i: nat, k: nat)
    requires Closed(l) && l.Node(owner) && i <= k && Nth(l, owner, k) != NIL
    ensures Nth(l, owner, i) != NIL
  {
    if i < k {
      EarlierChildren(l, owner, i, k - 1);
    }
  }

  lemma {:induction false} SilentNeverStops(l: Links, fails: Visitor, x: Ref, path: set<Ref>, log: seq<Ref>)
    requires Closed(l) && l.Node(x) && x !in path && Silent(fails)
    ensures Visit(l, fails, x, path, log).status != Stopped
    decreases Nodes(l) - path, 0
  {
    SilentListNeverStops(l, fails, x, l.first[x], {}, path + {x}, log + [x]);
  }

  lemma {:induction false} SilentListNeverStops(
    l: Links, fails: Visitor, owner: Ref, c: Ref, seen: set<Ref>, path: set<Ref>, log: seq<Ref>)
    requires Closed(l) && l.Node(owner) && (c == NIL || l.Node(c)) && Silent(fails)
    ensures VisitList(l, fails, owner, c, seen, path, log).status != Stopped
    decreases Nodes(l) - path, 1, Nodes(l) - seen
  {
    if c != NIL && c !in path && c !in seen {
      SilentNeverStops(l, fails, c, path, log);
      SilentListNeverStops(l, fails, owner, OwnedNext(l, owner, c), seen + {c}, path, Visit(l, fails, c, path, log).log);
    }
  }

  // ----- a tangle is always reported -----

  /** Enumerating from the `i`-th child on fails if the `k`-th is bad, `i <= k`. */
  lemma {:induction false} BadChildReported(
    l: Links, fails: Visitor, owner: Ref, i: nat, k: nat, path: set<Ref>, log: seq<Ref>)
    requires Closed(l) && l.Node(owner) && Silent(fails) && i <= k && Nth(l, owner, k) != NIL
    requires Closes(l, owner, path, k) || (Nth(l, owner, k) !in path &&
      forall log' :: Visit(l, fails, Nth(l, owner, k), path, log').status == Cycle)
    ensures VisitList(l, fails, owner, Nth(l, owner, i), Seen(l, owner, i), path, log).status == Cycle
    decreases k - i
  {
    EarlierChildren(l, owner, i, k);
    var d := Nth(l, owner, i);
    if d !in path && d !in Seen(l, owner, i) {
      SilentNeverStops(l, fails, d, path, log);
      if i < k {
        SeenGrows(l, owner, i);
        BadChildReported(l, fails, owner, i + 1, k, path, Visit(l, fails, d, path, log).log);
      }
    }
  }

  lemma {:induction false} TangleReported(l: Links, fails: Visitor, x: Ref, path: set<Ref>, log: seq<Ref>, trail: seq<Ref>)
    requires Closed(l) && l.Node(x) && x !in path && Silent(fails) && Tangle(l, x, path, trail)
    ensures Visit(l, fails, x, path, log).status == Cycle
    decreases |trail|
  {
    var inner := path + {x};
    assert Seen(l, x, 0) == {};
    if |trail| == 1 {
      assert Elems(trail) == {x};
      var k: nat :| Closes(l, x, path + Elems(trail), k);
      BadChildReported(l, fails, x, 0, k, inner, log + [x]);
    } else {
      assert OwnedChild(l, trail[0], trail[1]);
      var k: nat :| Nth(l, x, k) == trail[1];
      var rest := trail[1..];
      TangleTail(l, x, path, trail);
      forall log' ensures Visit(l, fails, rest[0], inner, log').status == Cycle {
        TangleReported(l, fails, rest[0], inner, log', rest);
      }
      BadChildReported(l, fails, x, 0, k, inner, log + [x]);
    }
  }

  lemma TangleTail(l: Links, x: Ref, path: set<Ref>, trail: seq<Ref>)
    requires Closed(l) && Tangle(l, x, path, trail) && |trail| > 1
    ensures trail[1] !in path + {x} && Tangle(l, trail[1], path + {x}, trail[1..])
  {
    var rest := trail[1..];
    assert Elems(trail) == {x} + Elems(rest) by {
      assert trail == [x] + rest;
    }
    assert path + Elems(trail) == path + {x} + Elems(rest);
    forall i | 0 <= i < |rest| ensures rest[i] != x && rest[i] !in path {
      assert trail[i + 1] == rest[i] && rest[i] in Elems(trail);
    }
    forall i | 0 <= i < |rest| - 1 ensures OwnedChild(l, rest[i], rest[i + 1]) {
      assert OwnedChild(l, trail[i + 1], trail[i + 2]);
    }
  }

  // ----- a reported cycle is a tangle -----

  lemma {:induction false} CycleIsTangle(l: Links, fails: Visitor, x: Ref, path: set<Ref>, log: seq<Ref>)
    returns (trail: seq<Ref>)
    requires Closed(l) && l.Node(x) && x !in path
    requires Visit(l, fails, x, path, log).status == Cycle
    ensures Tangle(l, x, path, trail)
    decreases Nodes(l) - path, 0
  {
    assert Seen(l, x, 0) == {};
    trail := ListCycleIsTangle(l, fails, x, 0, path, log + [x]);
  }

  lemma {:induction false} ListCycleIsTangle(l: Links, fails: Visitor, owner: Ref, i: nat, path: set<Ref>, log: seq<Ref>)
    returns (trail: seq<Ref>)
    requires Closed(l) && l.Node(owner) && owner !in path
    requires VisitList(l, fails, owner, Nth(l, owner, i), Seen(l, owner, i), path + {owner}, log).status == Cycle
    ensures Tangle(l, owner, path, trail)
    decreases Nodes(l) - path - {owner}, 1, Nodes(l) - Seen(l, owner, i)
  {
    var d := Nth(l, owner, i);
    var inner := path + {owner};
    if d in inner || d in Seen(l, owner, i) {
      trail := [owner];
      assert Elems(trail) == {owner};
      assert path + Elems(trail) == inner && Closes(l, owner, inner, i);
    } else if Visit(l, fails, d, inner, log).status == Cycle {
      var rest := CycleIsTangle(l, fails, d, inner, log);
      trail := [owner] + rest;
      assert OwnedChild(l, owner, d);
      assert Elems(trail) == {owner} + Elems(rest);
      assert path + Elems(trail) == inner + Elems(rest);
      forall j | 0 <= j < |trail| - 1 ensures OwnedChild(l, trail[j], trail[j + 1]) {
        if j > 0 {
          assert OwnedChild(l, rest[j - 1], rest[j]);
        }
      }
      forall j | 0 <= j < |rest| ensures rest[j] != owner {
        assert rest[j] in Elems(rest);
      }
    } else {
      SeenGrows(l, owner, i);
      trail := ListCycleIsTangle(l, fails, owner, i + 1, path, Visit(l, fails, d, inner, log).log);
    }
  }

  /**
   * With a visitor that never fails, `Walk` reports a cycle exactly when some downward trail from the root
   * meets a node that is on it, or a child list that repeats a child.
   */
  lemma CycleExactly(l: Links, fails: Visitor, x: Ref)
    requires Closed(l) && l.Node(x) && Silent(fails)
    ensures Visit(l, fails, x, {}, []).status == (if exists trail :: Tangle(l, x, {}, trail) then Cycle else Done)
  {
    SilentNeverStops(l, fails, x, {}, []);
    if Visit(l, fails, x, {}, []).status == Cycle {
      var trail := CycleIsTangle(l, fails, x, {}, []);
    }
    if exists trail :: Tangle(l, x, {}, trail) {
      var trail :| Tangle(l, x, {}, trail);
      TangleReported(l, fails, x, {}, [], trail);
    }
  }
}
