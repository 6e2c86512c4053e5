/** The mutable document tree. */
module Dom {
  import opened Sequences
  import opened DomLinks
  import opened DomGraph
  import opened DomWalk
  import opened DomSplice
  import opened DomForest

  datatype Error = Ok | NilNode | Cyclic | InvalidOperation

  /** One call of the mutation interface. */
  datatype Edit = Add(n: Ref, cur: Ref) | Append(n: Ref, cur: Ref) | Swap(n: Ref, nodes: seq<Ref>) | Unlink(n: Ref) {
    /** The receiver is a node, and every operand a node or nil. */
    ghost predicate OnNodes(size: nat) {
      match this
      case Add(n, cur) => 0 < n < size && 0 <= cur < size
      case Append(n, cur) => 0 < n < size && 0 <= cur < size
      case Swap(n, nodes) => 0 < n < size && forall m :: m in nodes ==> 0 <= m < size
      case Unlink(n) => 0 <= n < size
    }
  }

  /** Whether an operand is nil, and whether one occurs twice. */
  method Scan(nodes: seq<Ref>) returns (hasNil: bool, repeats: bool)
    ensures hasNil <==> NIL in nodes
    ensures repeats <==> !Distinct(nodes)
  {
    hasNil, repeats := false, false;
    var seen := {};
    for i := 0 to |nodes|
      invariant hasNil <==> NIL in nodes[..i]
      invariant repeats <==> !Distinct(nodes[..i])
      invariant seen == Elems(nodes[..i])
    {
      assert nodes[..i + 1] == nodes[..i] + [nodes[i]];
      hasNil := hasNil || nodes[i] == NIL;
      if nodes[i] in seen {
        var j :| 0 <= j < i && nodes[..i][j] == nodes[i];
        assert nodes[..i + 1][j] == nodes[..i + 1][i];
        repeats := true;
      } else if repeats {
        var j, k :| 0 <= j < k < i && nodes[..i][j] == nodes[..i][k];
        assert nodes[..i + 1][j] == nodes[..i + 1][k];
      }
      seen := seen + {nodes[i]};
    }
    assert nodes[..|nodes|] == nodes;
  }

  class Tree {
    var parent: seq<Ref>
    var firstChild: seq<Ref>
    var lastChild: seq<Ref>
    var next: seq<Ref>
    var prev: seq<Ref>
    var kind: seq<Kind>
    var content: seq<seq<int>>
    /** For every node, the whole sibling list it stands in. */
    ghost var sibs: seq<seq<Ref>>

    /** A node of every kind given, none of them linked. */
    constructor (kinds: seq<Kind>, contents: seq<seq<int>>)
      requires |contents| == |kinds|
      ensures Valid() && |parent| == |kinds| + 1
      ensures forall x :: IsNode(x) ==> kind[x] == kinds[x - 1] && content[x] == contents[x - 1]
      ensures forall x :: IsNode(x) ==> sibs[x] == [x] && parent[x] == NIL
    {
      var unset := seq(|kinds| + 1, _ => NIL);
      parent, firstChild, lastChild, next, prev := unset, unset, unset, unset, unset;
      kind, content := [Element] + kinds, [[]] + contents;
      sibs := Singles(|kinds| + 1);
      new;
      UnsetIsForest(Shape(), kind);
    }

    ghost function Shape(): Links
      reads this
    {
      Links(parent, firstChild, lastChild, next, prev)
    }

    ghost predicate IsNode(x: Ref)
      reads this
    {
      Shape().Node(x)
    }

    /** The links form a forest, and only containers have children. */
    ghost predicate Valid()
      reads this
    {
      && Linked(Shape(), sibs) && Rooted(parent)
      && |content| == |parent| && BareLeaves(Shape(), kind)
    }

    /** The children of `p`, in order. */
    ghost function Children(p: Ref): seq<Ref>
      reads this
      requires Closed(Shape()) && |sibs| == |parent| && IsNode(p)
    {
      Kids(Shape(), sibs, p)
    }

    method NextOwnedChild(owner: Ref, child: Ref) returns (r: Ref)
      requires Closed(Shape()) && IsNode(child)
      ensures r == OwnedNext(Shape(), owner, child)
    {
      if parent[child] != owner {
        return NIL;
      }
      return next[child];
    }

    /** Every owned child of `x`, for the search below; stops at a repeat, so it ends on a cyclic list too. */
    method PushOwnedChildren(x: Ref, stack: seq<Ref>) returns (grown: seq<Ref>)
      requires Closed(Shape()) && IsNode(x)
      requires forall y :: y in stack ==> IsNode(y)
      ensures stack <= grown
      ensures forall y :: y in grown ==> IsNode(y) && (y in stack || OwnedChild(Shape(), x, y))
      ensures forall y :: OwnedChild(Shape(), x, y) ==> y in grown
    {
      grown := stack;
      var siblingSeen := {};
      var child := firstChild[x];
      ghost var k := 0;
      while child != NIL && child !in siblingSeen
        invariant stack <= grown
        invariant child == Nth(Shape(), x, k)
        invariant siblingSeen <= Nodes(Shape())
        invariant forall y :: y in siblingSeen ==> y in grown
        invariant forall y :: y in grown ==> IsNode(y) && (y in stack || OwnedChild(Shape(), x, y))
        invariant firstChild[x] == child || firstChild[x] in siblingSeen
        invariant forall y :: y in siblingSeen ==>
          OwnedNext(Shape(), x, y) == NIL || OwnedNext(Shape(), x, y) == child || OwnedNext(Shape(), x, y) in siblingSeen
        decreases Nodes(Shape()) - siblingSeen
      {
        assert OwnedChild(Shape(), x, child);
        siblingSeen := siblingSeen + {child};
        grown := grown + [child];
        child := NextOwnedChild(x, child);
        k := k + 1;
      }
      forall y | OwnedChild(Shape(), x, y) ensures y in grown {
        var j: nat :| Nth(Shape(), x, j) == y;
        ClosedUnderNext(Shape(), x, siblingSeen, j);
      }
    }

    /** Whether `target` is reachable from `node` down owned child links, on any link graph. */
    method ChildReaches(node: Ref, target: Ref) returns (found: bool)
      requires Closed(Shape()) && IsNode(node)
      ensures found <==> Reaches(Shape(), node, target)
    {
      var visited := {};
      var stack := [node];
      ReachesSelf(Shape(), node);
      while |stack| > 0
        invariant visited <= Nodes(Shape()) && target !in visited
        invariant node in visited || node in stack
        invariant forall y :: y in stack || y in visited ==> IsNode(y) && Reaches(Shape(), node, y)
        invariant forall x, c :: x in visited && OwnedChild(Shape(), x, c) ==> c in visited || c in stack
        decreases Nodes(Shape()) - visited, |stack|
      {
        var dn := stack[|stack| - 1];
        ghost var before := stack;
        stack := stack[..|stack| - 1];
        assert before == stack + [dn];
        if dn == target {
          return true;
        }
        if dn !in visited {
          visited := visited + {dn};
          ghost var below := stack;
          stack := PushOwnedChildren(dn, stack);
          forall y | y in stack ensures Reaches(Shape(), node, y) {
            if y !in below {
              ReachesStep(Shape(), node, dn, y);
            }
          }
          assert forall y :: y in below ==> y in stack;
        }
      }
      if Reaches(Shape(), node, target) {
        var path :| TrailBetween(Shape(), node, target, path);
        ClosedUnderChildren(Shape(), visited, path);
        assert false;
      }
      return false;
    }

    /**
     * Whether linking `cur` under `p` would close a cycle: exact wherever the way up from `p` ends, even if
     * child links are shared or cyclic.
     */
    method WouldCreateCycle(p: Ref, cur: Ref) returns (b: bool)
      requires Closed(Shape()) && IsNode(cur) && (p == NIL || IsNode(p)) && TopsOut(parent, p)
      ensures b <==> Above(parent, p, cur) || (p != NIL && Reaches(Shape(), cur, p))
    {
      var anc := p;
      ghost var k := 0;
      ghost var top: nat :| Up(parent, p, top) == NIL;
      while anc != NIL
        invariant anc == NIL || IsNode(anc)
        invariant Up(parent, p, k) == anc
        invariant forall j: nat :: j < k ==> Up(parent, p, j) != cur
        invariant k <= top
        decreases top - k
      {
        if anc == cur {
          return true;
        }
        UpSplit(parent, p, k, 1);
        anc := parent[anc];
        k := k + 1;
      }
      forall j: nat ensures Up(parent, p, j) != cur {
        if j >= k {
          UpSplit(parent, p, k, j - k);
        }
      }
      if p == NIL {
        return false;
      }
      if firstChild[cur] == NIL {
        NoChildNoTrail(Shape(), cur, p);
        assert Up(parent, p, 0) == p;
        return false;
      }
      b := ChildReaches(cur, p);
    }

    /**
     * `Walk`: the visits made and the way it ended are those of the recursive pre-order, on every finite
     * link graph.
     */
    method Walk(n: Ref, fails: Visitor) returns (log: seq<Ref>, status: Status)
      requires Closed(Shape()) && IsNode(n)
      ensures Outcome(log, status) == Visit(Shape(), fails, n, {}, [])
    {
      hide Rest, FramesCost, Visit;
      var onPath := {};
      var stack := [Frame(n, false, NIL, {})];
      log := [];
      StartStep(Shape(), fails, n);
      while |stack| > 0
        invariant Frames(Shape(), stack) && onPath == Entered(stack)
        invariant Rest(Shape(), fails, stack, log) == Visit(Shape(), fails, n, {}, [])
        decreases FramesCost(Shape(), stack)
      {
        var i := |stack| - 1;
        var top := stack[i];
        if !top.entered {
          ghost var before := log;
          log := log + [top.node];
          if fails(log) {
            StopStep(Shape(), fails, stack, before);
            return log, Stopped;
          }
          EnterStep(Shape(), fails, stack, before);
          onPath := onPath + {top.node};
          stack := stack[i := Frame(top.node, true, firstChild[top.node], {})];
        } else if top.activeChild == NIL {
          LeaveStep(Shape(), fails, stack, log);
          onPath := onPath - {top.node};
          ghost var below := stack[..i];
          stack := stack[..i];
          if i > 0 {
            var sibling := NextOwnedChild(stack[i - 1].node, stack[i - 1].activeChild);
            stack := stack[i - 1 := stack[i - 1].(activeChild := sibling)];
          }
          assert stack == Advanced(Shape(), below);
        } else {
          if top.activeChild in onPath || top.activeChild in top.seen {
            StuckStep(Shape(), fails, stack, log);
            return log, Cycle;
          }
          DescendStep(Shape(), fails, stack, log);
          stack := stack[i := top.(seen := top.seen + {top.activeChild})] + [Frame(top.activeChild, false, NIL, {})];
        }
      }
      NothingLeft(Shape(), fails, log);
      return log, Done;
    }

    // ----- mutation -----

    /** `UnlinkNode`; a nil node is a no-op. */
    method UnlinkNode(n: Ref)
      requires Valid() && (n == NIL || IsNode(n))
      modifies this
      ensures Valid() && kind == old(kind) && content == old(content)
      ensures n == NIL ==> Shape() == old(Shape()) && sibs == old(sibs)
      ensures n != NIL ==> Shape() == Unlinked(old(Shape()), n) && sibs == Detached(old(sibs), {n})
      ensures n != NIL ==> parent == old(parent)[n := NIL] && prev[n] == NIL && next[n] == NIL
      ensures n != NIL ==> forall q :: IsNode(q) ==> Children(q) == Without(old(Children(q)), {n})
    {
      if n == NIL {
        return;
      }
      ghost var l := Shape();
      UnlinkedKeepsTree(l, sibs, kind, n);
      DetachLinks(n);
      sibs := Detached(sibs, {n});
      forall q | IsNode(q) {
        DetachedKids(l, old(sibs), Shape(), {n}, q);
      }
    }

    /** The pointer updates of `unlinkNode`. */
    method DetachLinks(n: Ref)
      requires Closed(Shape()) && IsNode(n) && prev[n] != n && next[n] != n
      modifies this`parent, this`firstChild, this`lastChild, this`next, this`prev
      ensures Shape() == Unlinked(old(Shape()), n)
    {
      var p := parent[n];
      if p != NIL {
        if firstChild[p] != NIL && firstChild[p] == n {
          firstChild := firstChild[p := next[n]];
        }
        if lastChild[p] != NIL && lastChild[p] == n {
          lastChild := lastChild[p := prev[n]];
        }
      }
      if prev[n] != NIL {
        next := next[prev[n] := next[n]];
      }
      if next[n] != NIL {
        prev := prev[next[n] := prev[n]];
      }
      parent := parent[n := NIL];
      prev := prev[n := NIL];
      next := next[n := NIL];
    }

    /** The cycle guard and auto-unlink that every AddChild path runs first. */
    method AddChildPreflight(n: Ref, cur: Ref) returns (err: Error)
      requires Valid() && IsNode(n) && IsNode(cur)
      modifies this
      ensures Valid() && kind == old(kind) && content == old(content)
      ensures err == if Above(old(parent), n, cur) then Cyclic else Ok
      ensures err != Ok ==> Shape() == old(Shape()) && sibs == old(sibs)
      ensures err == Ok ==> sibs == Detached(old(sibs), {cur}) && parent == old(parent)[cur := NIL]
      ensures err == Ok ==> forall q :: IsNode(q) ==> Children(q) == Without(old(Children(q)), {cur})
      ensures err == Ok ==> !Above(parent, n, cur)
    {
      assert TopsOut(parent, n);
      var cyclic := WouldCreateCycle(n, cur);
      CycleGuardInForest(Shape(), sibs, n, cur);
      if cyclic {
        return Cyclic;
      }
      DetachForInsert(n, cur);
      return Ok;
    }

    /** The same for AddSibling, against the parent of the anchor. */
    method AddSiblingPreflight(n: Ref, cur: Ref) returns (err: Error)
      requires Valid() && IsNode(n) && IsNode(cur)
      modifies this
      ensures Valid() && kind == old(kind) && content == old(content)
      ensures err == if Above(old(parent), n, cur) then Cyclic else Ok
      ensures err != Ok ==> Shape() == old(Shape()) && sibs == old(sibs)
      ensures err == Ok ==> sibs == Detached(old(sibs), {cur}) && parent == old(parent)[cur := NIL]
      ensures err == Ok ==> forall q :: IsNode(q) ==> Children(q) == Without(old(Children(q)), {cur})
      ensures err == Ok ==> !Above(parent, n, cur)
    {
      assert Up(parent, n, 0) == n;
      AboveStep(parent, n, cur);
      if cur == n {
        return Cyclic;
      }
      assert TopsOut(parent, parent[n]) by {
        if parent[n] == NIL {
          assert Up(parent, NIL, 0) == NIL;
        }
      }
      var cyclic := WouldCreateCycle(parent[n], cur);
      CycleGuardInForest(Shape(), sibs, parent[n], cur);
      if cyclic {
        return Cyclic;
      }
      DetachForInsert(n, cur);
      return Ok;
    }

    method DetachForInsert(n: Ref, cur: Ref)
      requires Valid() && IsNode(n) && IsNode(cur) && !Above(parent, n, cur)
      modifies this
      ensures Valid() && kind == old(kind) && content == old(content)
      ensures sibs == Detached(old(sibs), {cur}) && parent == old(parent)[cur := NIL]
      ensures forall q :: IsNode(q) ==> Children(q) == Without(old(Children(q)), {cur})
      ensures !Above(parent, n, cur)
    {
      if parent[cur] != NIL || prev[cur] != NIL || next[cur] != NIL {
        ghost var before := parent;
        UnlinkNode(cur);
        AboveUnmoved(before, parent, {cur}, n, cur);
      } else {
        BareIsLoose(Shape(), sibs, cur);
        forall q | IsNode(q) {
          DetachedKids(Shape(), sibs, Shape(), {cur}, q);
        }
      }
    }

    /** `addSibling`: `cur` becomes the last of the siblings of `n`; texts merge into a text anchor instead. */
    method AddSibling(n: Ref, cur: Ref) returns (err: Error)
      requires Valid() && IsNode(n) && (cur == NIL || IsNode(cur))
      modifies this
      ensures Valid() && kind == old(kind)
      ensures err == if cur == NIL then NilNode else if Above(old(parent), n, cur) then Cyclic else Ok
      ensures err != Ok ==> Shape() == old(Shape()) && sibs == old(sibs) && content == old(content)
      ensures err == Ok && kind[n] == Text && kind[cur] == Text ==>
        && parent == old(parent)[cur := NIL] && sibs == Detached(old(sibs), {cur})
        && content == old(content)[n := old(content)[n] + old(content)[cur]]
      ensures err == Ok && !(kind[n] == Text && kind[cur] == Text) ==>
        && parent == old(parent)[cur := old(parent)[n]]
        && sibs == Spliced(Detached(old(sibs), {cur}), Without(old(sibs)[n], {cur}) + [cur], {})
        && content == old(content)
      ensures err == Ok ==> forall q :: IsNode(q) ==>
        var ks := Without(old(Children(q)), {cur});
        Children(q) == if q == old(parent)[n] && !(kind[n] == Text && kind[cur] == Text) then ks + [cur] else ks
    {
      if cur == NIL {
        return NilNode;
      }
      err := AddSiblingPreflight(n, cur);
      if err != Ok {
        return;
      }
      assert Up(old(parent), n, 0) == n;
      assert n != cur;
      if kind[n] == Text && kind[cur] == Text {
        content := content[n := content[n] + content[cur]];
        return Ok;
      }
      LinkLast(n, cur);
      return Ok;
    }

    /** Links the loose node `cur` behind the last sibling of `n`. */
    method LinkLast(n: Ref, cur: Ref)
      requires Valid() && IsNode(n) && IsNode(cur) && !Above(parent, n, cur)
      requires sibs[cur] == [cur] && parent[cur] == NIL
      modifies this`parent, this`next, this`prev, this`lastChild, this`sibs
      ensures Valid() && parent == old(parent)[cur := old(parent)[n]]
      ensures sibs == Spliced(old(sibs), old(sibs)[n] + [cur], {})
      ensures forall q :: IsNode(q) ==>
        Children(q) == if q == old(parent)[n] then old(Children(q)) + [cur] else old(Children(q))
    {
      var iter := n;
      ghost var s := sibs[n];
      ListFacts(Shape(), sibs, n);
      ghost var k :| 0 <= k < |s| && s[k] == n;
      while next[iter] != NIL
        invariant 0 <= k < |s| && s[k] == iter
        decreases |s| - k
      {
        assert next[s[k]] == At(s, k + 1);
        iter := next[iter];
        k := k + 1;
      }
      assert next[s[k]] == At(s, k + 1);
      LinkBehind(n, iter, cur);
    }

    /** Links the loose node `cur` behind `tail`, the last sibling of `n`. */
    method LinkBehind(ghost n: Ref, tail: Ref, cur: Ref)
      requires Valid() && IsNode(n) && IsNode(cur) && !Above(parent, n, cur)
      requires sibs[cur] == [cur] && parent[cur] == NIL
      requires tail == At(sibs[n], |sibs[n]| - 1) && tail in sibs[n]
      modifies this`parent, this`next, this`prev, this`lastChild, this`sibs
      ensures Valid() && parent == old(parent)[cur := old(parent)[n]]
      ensures sibs == Spliced(old(sibs), old(sibs)[n] + [cur], {})
      ensures forall q :: IsNode(q) ==>
        Children(q) == if q == old(parent)[n] then old(Children(q)) + [cur] else old(Children(q))
    {
      ghost var l, s := Shape(), sibs[n];
      ListFacts(l, sibs, n);
      assert parent[tail] == parent[n];
      AboveStep(parent, n, cur);
      assert Up(parent, n, 0) == n;
      assert cur !in s;
      AppendedLinked(l, sibs, parent[n], s, cur);
      LinkKeepsRooted(l.parent, l.parent[cur := parent[n]], {cur}, parent[n]);
      next := next[tail := cur];
      prev := prev[cur := tail];
      var p := parent[tail];
      parent := parent[cur := p];
      if p != NIL {
        lastChild := lastChild[p := cur];
      }
      sibs := Spliced(sibs, s + [cur], {});
      if p != NIL {
        ChildListOf(l, old(sibs), n);
      }
      forall q | IsNode(q) {
        AppendedKids(l, old(sibs), Shape(), s, p, cur, q);
      }
    }

    /** `AddChild`, as the receiver's node type defines it. */
    method AddChild(n: Ref, cur: Ref) returns (err: Error)
      requires Valid() && IsNode(n) && (cur == NIL || IsNode(cur))
      modifies this
      ensures Valid() && kind == old(kind)
      ensures err ==
        if cur == NIL then NilNode
        else if kind[n] == Element || kind[n] == EntityRef || (kind[n] == Text && kind[cur] == Text)
          || (kind[n] == Comment && kind[cur] == Comment)
          || (kind[n] == ProcessingInstruction && (kind[cur] == Text || kind[cur] == CDataSection))
          then (if Above(old(parent), n, cur) then Cyclic else Ok)
        else if kind[n] == ProcessingInstruction && cur == n then Cyclic
        else InvalidOperation
      ensures err != Ok ==> Shape() == old(Shape()) && sibs == old(sibs) && content == old(content)
      ensures err == Ok && (kind[n] == Element || kind[n] == EntityRef) ==>
        var ks := Without(old(Children(n)), {cur});
        if ks != [] && IsNode(ks[|ks| - 1]) && kind[ks[|ks| - 1]] == Text && kind[cur] == Text then
          && Children(n) == ks && parent == old(parent)[cur := NIL] && sibs == Detached(old(sibs), {cur})
          && content == old(content)[ks[|ks| - 1] := old(content)[ks[|ks| - 1]] + old(content)[cur]]
        else
          && Children(n) == ks + [cur] && parent == old(parent)[cur := n] && content == old(content)
          && sibs == Spliced(Detached(old(sibs), {cur}), ks + [cur], {})
      ensures err == Ok && kind[n] != Element && kind[n] != EntityRef ==>
        && Children(n) == [] && parent == old(parent)[cur := NIL] && sibs == Detached(old(sibs), {cur})
        && content == old(content)[n := old(content)[n] + old(content)[cur]]
      ensures err == Ok ==> forall q :: IsNode(q) && q != n ==> Children(q) == Without(old(Children(q)), {cur})
    {
      if cur == NIL {
        return NilNode;
      }
      match kind[n] {
        case Element =>
          err := AddToContainer(n, cur);
        case EntityRef =>
          err := AddToContainer(n, cur);
        case Text =>
          if kind[cur] != Text {
            return InvalidOperation;
          }
          err := AddChildPreflight(n, cur);
          if err == Ok {
            content := content[n := content[n] + content[cur]];
          }
        case Comment =>
          if kind[cur] != Comment {
            return InvalidOperation;
          }
          err := AddChildPreflight(n, cur);
          if err == Ok {
            content := content[n := content[n] + content[cur]];
          }
        case CDataSection =>
          return InvalidOperation;
        case ProcessingInstruction =>
          if kind[cur] == Text || kind[cur] == CDataSection {
            err := AddChildPreflight(n, cur);
            if err == Ok {
              content := content[n := content[n] + content[cur]];
            }
          } else {
            return if cur == n then Cyclic else InvalidOperation;
          }
      }
    }

    /** `addChild` on a container. */
    method AddToContainer(n: Ref, cur: Ref) returns (err: Error)
      requires Valid() && IsNode(n) && IsNode(cur) && Container(kind[n])
      modifies this
      ensures Valid() && kind == old(kind)
      ensures err == if Above(old(parent), n, cur) then Cyclic else Ok
      ensures err != Ok ==> Shape() == old(Shape()) && sibs == old(sibs) && content == old(content)
      ensures err == Ok ==>
        var ks := Without(old(Children(n)), {cur});
        if ks != [] && IsNode(ks[|ks| - 1]) && kind[ks[|ks| - 1]] == Text && kind[cur] == Text then
          && Children(n) == ks && parent == old(parent)[cur := NIL] && sibs == Detached(old(sibs), {cur})
          && content == old(content)[ks[|ks| - 1] := old(content)[ks[|ks| - 1]] + old(content)[cur]]
        else
          && Children(n) == ks + [cur] && parent == old(parent)[cur := n] && content == old(content)
          && sibs == Spliced(Detached(old(sibs), {cur}), ks + [cur], {})
      ensures err == Ok ==> forall q :: IsNode(q) && q != n ==> Children(q) == Without(old(Children(q)), {cur})
    {
      err := AddChildPreflight(n, cur);
      if err != Ok {
        return;
      }
      AppendLoose(n, cur);
      return Ok;
    }

    /** Puts the loose node `cur` behind the children of `n`, or merges it into the last of them. */
    method AppendLoose(n: Ref, cur: Ref)
      requires Valid() && IsNode(n) && IsNode(cur) && Container(kind[n]) && !Above(parent, n, cur)
      requires sibs[cur] == [cur] && parent[cur] == NIL
      modifies this
      ensures Valid() && kind == old(kind)
      ensures
        var ks := old(Children(n));
        if ks != [] && IsNode(ks[|ks| - 1]) && kind[ks[|ks| - 1]] == Text && kind[cur] == Text then
          && Children(n) == ks && parent == old(parent) && sibs == old(sibs)
          && content == old(content)[ks[|ks| - 1] := old(content)[ks[|ks| - 1]] + old(content)[cur]]
        else
          && Children(n) == ks + [cur] && parent == old(parent)[cur := n] && content == old(content)
          && sibs == Spliced(old(sibs), ks + [cur], {})
      ensures forall q :: IsNode(q) && q != n ==> Children(q) == old(Children(q))
    {
      ghost var l0, sibs0, ks := Shape(), sibs, Children(n);
      var l := lastChild[n];
      if l == NIL {
        EmptyKids(l0, sibs, n);
        LinkFirst(n, cur);
        assert [] + [cur] == [cur];
        return;
      }
      LastHasNoNext(l0, sibs, n);
      assert At(ks, |ks| - 1) == l && l != cur;
      AboveStep(parent, l, cur);
      if next[l] == NIL && (kind[cur] != Text || kind[l] != Text) {
        LinkBehind(l, l, cur);
        return;
      }
      MergeLoose(l, cur);
      if kind[cur] == Text && kind[l] == Text {
        SameKids(l0, Shape(), sibs, n);
        assert lastChild[n := l] == lastChild;
        lastChild := lastChild[n := l];
        forall q | IsNode(q) {
          SameKids(l0, Shape(), sibs, q);
        }
      }
    }

    /** `AddSibling` of a loose text to a text, the only way the slow path of `addChild` is taken in a forest. */
    method MergeLoose(l: Ref, cur: Ref)
      requires Valid() && IsNode(l) && IsNode(cur) && !Above(parent, l, cur)
      requires sibs[cur] == [cur] && parent[cur] == NIL && kind[l] == Text && kind[cur] == Text
      modifies this
      ensures Valid() && kind == old(kind) && parent == old(parent) && sibs == old(sibs)
      ensures content == old(content)[l := old(content)[l] + old(content)[cur]]
    {
      LooseLinks(Shape(), sibs, cur);
      BareIsLoose(Shape(), sibs, cur);
      var err := AddSibling(l, cur);
    }

    /** Makes the loose node `cur` the only child of `n`. */
    method LinkFirst(n: Ref, cur: Ref)
      requires Valid() && IsNode(n) && IsNode(cur) && Container(kind[n]) && !Above(parent, n, cur)
      requires lastChild[n] == NIL && sibs[cur] == [cur] && parent[cur] == NIL
      modifies this`parent, this`firstChild, this`lastChild, this`sibs
      ensures Valid() && parent == old(parent)[cur := n] && sibs == Spliced(old(sibs), [cur], {})
      ensures forall q :: IsNode(q) ==> Children(q) == if q == n then [cur] else old(Children(q))
    {
      ghost var l := Shape();
      assert Ends(l, sibs, n);
      EmptyKids(l, sibs, n);
      AppendedLinked(l, sibs, n, [], cur);
      LinkKeepsRooted(l.parent, l.parent[cur := n], {cur}, n);
      assert [] + [cur] == [cur];
      firstChild := firstChild[n := cur];
      lastChild := lastChild[n := cur];
      parent := parent[cur := n];
      sibs := Spliced(sibs, [cur], {});
      forall q | IsNode(q) {
        AppendedKids(l, old(sibs), Shape(), [], n, cur, q);
      }
    }

    /** `Replace`: `nodes` take the place of `n`. */
    method Replace(n: Ref, nodes: seq<Ref>) returns (err: Error)
      requires Valid() && IsNode(n) && forall m :: m in nodes ==> m == NIL || IsNode(m)
      modifies this
      ensures Valid() && kind == old(kind) && content == old(content)
      ensures err ==
        if nodes == [] then InvalidOperation
        else if NIL in nodes then NilNode
        else if exists i, j :: 0 <= i < j < |nodes| && nodes[i] == nodes[j] then InvalidOperation
        else if exists m :: m in nodes && m != n && Above(old(parent), old(parent)[n], m) then Cyclic
        else Ok
      ensures err != Ok ==> Shape() == old(Shape()) && sibs == old(sibs)
      ensures err == Ok ==>
        var d := Elems(nodes) - {n};
        var s := old(sibs)[n];
        && sibs == Spliced(Detached(old(sibs), d),
             Without(Before(s, n), d) + nodes + Without(After(s, n), d), {n} - Elems(nodes))
        && parent == Reparented(old(parent), n, nodes)
      ensures err == Ok ==> forall q :: IsNode(q) ==>
        var ks, d := old(Children(q)), Elems(nodes) - {n};
        Children(q) ==
          if q == old(parent)[n] then Without(Before(ks, n), d) + nodes + Without(After(ks, n), d) else Without(ks, d)
    {
      if |nodes| == 0 {
        return InvalidOperation;
      }
      var hasNil, repeats := Scan(nodes);
      if hasNil {
        return NilNode;
      }
      if repeats {
        return InvalidOperation;
      }
      var cyclic := AnyAbove(n, nodes);
      if cyclic {
        return Cyclic;
      }
      ghost var d := Elems(nodes) - {n};
      DetachOperands(n, nodes);
      StillNotAbove(old(parent), parent, n, d);
      CutWithout(old(sibs)[n], d, n) by {
        ListFacts(old(Shape()), old(sibs), n);
      }
      SpliceIn(n, nodes);
      forall q | IsNode(q) {
        ReplaceChildren(old(Shape()), old(sibs), Shape(), sibs, n, nodes, q);
      }
      return Ok;
    }

    /** The cycle guard of `Replace`: whether an operand other than `n` is above the place of `n`. */
    method AnyAbove(n: Ref, nodes: seq<Ref>) returns (cyclic: bool)
      requires Valid() && IsNode(n) && forall m :: m in nodes ==> IsNode(m)
      ensures cyclic <==> !NoneAbove(parent, parent[n], Elems(nodes) - {n})
    {
      var p := parent[n];
      assert TopsOut(parent, p) by {
        if p == NIL {
          assert Up(parent, NIL, 0) == NIL;
        }
      }
      for i := 0 to |nodes|
        invariant forall j :: 0 <= j < i && nodes[j] != n ==> !Above(parent, p, nodes[j])
      {
        if nodes[i] != n {
          assert nodes[i] in nodes;
          cyclic := WouldCreateCycle(p, nodes[i]);
          CycleGuardInForest(Shape(), sibs, p, nodes[i]);
          if cyclic {
            return;
          }
        }
      }
      forall m | m in Elems(nodes) - {n} ensures !Above(parent, p, m) {
        var j :| 0 <= j < |nodes| && nodes[j] == m;
      }
      return false;
    }

    /** Unlinks every operand but `n` itself. */
    method DetachOperands(n: Ref, nodes: seq<Ref>)
      requires Valid() && IsNode(n) && forall m :: m in nodes ==> IsNode(m)
      modifies this
      ensures Valid() && kind == old(kind) && content == old(content)
      ensures sibs == Detached(old(sibs), Elems(nodes) - {n})
      ensures CutParents(old(parent), parent, Elems(nodes) - {n})
    {
      DetachedNone(sibs);
      ghost var d := {};
      for i := 0 to |nodes|
        invariant Valid() && kind == old(kind) && content == old(content)
        invariant d == Elems(nodes[..i]) - {n}
        invariant sibs == Detached(old(sibs), d)
        invariant CutParents(old(parent), parent, d)
      {
        var nn := nodes[i];
        assert nn in nodes;
        ElemsGrow(nodes, i, n);
        if nn != n {
          ghost var before := parent;
          UnlinkNode(nn);
          DetachedUnion(old(sibs), d, {nn});
          CutOneMore(old(parent), before, d, nn);
          d := d + {nn};
        }
      }
      assert nodes[..|nodes|] == nodes;
    }

    /** The pointer updates of `replaceNode`, once the operands are detached. */
    method LinkOperands(n: Ref, nodes: seq<Ref>, ghost a: seq<Ref>, ghost b: seq<Ref>)
      requires Closed(Shape()) && IsNode(n) && nodes != [] && Distinct(nodes) && AllNodes(nodes, |parent|)
      requires prev[n] == At(a, |a| - 1) && next[n] == At(b, 0) && prev[n] != n && next[n] != n && next[n] !in nodes
      requires nodes[0] == n || parent[nodes[0]] == prev[nodes[0]] == NIL
      modifies this`parent, this`firstChild, this`lastChild, this`next, this`prev
      ensures Closed(Shape()) && |parent| == |old(parent)|
      ensures Substituted(old(Shape()), Shape(), old(parent)[n], a, n, b, nodes)
      ensures firstChild == FirstPatched(old(Shape()), n, nodes[0]).first
      ensures lastChild == LastPatched(old(Shape()), n, nodes)
    {
      ghost var l := Shape();
      var p := parent[n];
      var afterN := next[n];
      FirstPatchedChains(l, n, nodes);
      PatchFirst(n, nodes[0]);
      var last := ChainOperands(nodes, p, l, n);
      TailChains(l, Shape(), p, a, n, b, nodes);
      LinkTail(n, nodes, p, last, afterN);
    }

    /** Puts the first operand into the position of `n`. */
    method PatchFirst(n: Ref, cur: Ref)
      requires Closed(Shape()) && IsNode(n) && IsNode(cur) && prev[n] != n
      modifies this`parent, this`firstChild, this`lastChild, this`next, this`prev
      ensures Shape() == FirstPatched(old(Shape()), n, cur)
    {
      var p := parent[n];
      if prev[n] != NIL {
        prev := prev[cur := prev[n]];
        next := next[prev[n] := cur];
      }
      if p != NIL {
        if firstChild[p] == n {
          firstChild := firstChild[p := cur];
        }
        if lastChild[p] == n {
          lastChild := lastChild[p := cur];
        }
        parent := parent[cur := p];
      }
    }

    /** Links the last operand to what followed `n`, and clears `n` unless it is an operand. */
    method LinkTail(n: Ref, nodes: seq<Ref>, p: Ref, last: Ref, afterN: Ref)
      requires Closed(Shape()) && IsNode(n) && nodes != [] && IsNode(nodes[0]) && IsNode(last)
      requires (afterN == NIL || IsNode(afterN)) && p == parent[nodes[0]]
      modifies this`parent, this`lastChild, this`next, this`prev
      ensures Shape() == TailLinked(old(Shape()), n, nodes, p, last, afterN)
    {
      next := next[last := afterN];
      if afterN != NIL {
        prev := prev[afterN := last];
      }
      if afterN == NIL && |nodes| > 1 {
        if parent[nodes[0]] != NIL {
          lastChild := lastChild[parent[nodes[0]] := last];
        }
      }
      var replacedIsInserted := n in nodes;
      if !replacedIsInserted {
        parent := parent[n := NIL];
        prev := prev[n := NIL];
        next := next[n := NIL];
      }
    }

    /** The loop of `replaceNode` that links each operand behind the one before it. */
    method ChainOperands(nodes: seq<Ref>, ghost p: Ref, ghost l: Links, ghost n: Ref) returns (last: Ref)
      requires Closed(Shape()) && Closed(l) && |parent| == |l.parent| && l.Node(n) && nodes != [] && Distinct(nodes)
      requires AllNodes(nodes, |parent|)
      requires OperandsChained(l, Shape(), n, p, nodes, 1)
      modifies this`parent, this`next, this`prev
      ensures Closed(Shape()) && |parent| == |l.parent| && last == nodes[|nodes| - 1]
      ensures OperandsChained(l, Shape(), n, p, nodes, |nodes|)
    {
      last := nodes[0];
      for i := 1 to |nodes|
        invariant Closed(Shape()) && |parent| == |l.parent| && last == nodes[i - 1]
        invariant OperandsChained(l, Shape(), n, p, nodes, i)
      {
        var c := nodes[i];
        OneMoreChained(l, Shape(), n, p, nodes, i);
        parent := parent[c := parent[last]];
        prev := prev[c := last];
        next := next[last := c];
        last := c;
      }
    }

    /** Splices the loose `nodes` (and `n` itself, if among them) into the place of `n`. */
    method SpliceIn(n: Ref, nodes: seq<Ref>)
      requires Valid() && IsNode(n) && nodes != [] && Distinct(nodes) && forall m :: m in nodes ==> IsNode(m)
      requires Loose(Shape(), sibs, Elems(nodes) - {n})
      requires NoneAbove(parent, parent[n], Elems(nodes) - {n})
      modifies this
      ensures Valid() && kind == old(kind) && content == old(content)
      ensures sibs == Spliced(old(sibs), Before(old(sibs)[n], n) + nodes + After(old(sibs)[n], n), {n} - Elems(nodes))
      ensures parent == Reparented(old(parent), n, nodes)
    {
      ghost var l, s := Shape(), sibs[n];
      ghost var a, b := Before(s, n), After(s, n);
      ListFacts(l, sibs, n);
      CutAt(s, n);
      SpliceReady(l, sibs, n, a, b, nodes);
      LinkOperands(n, nodes, a, b);
      SpliceDone(l, sibs, Shape(), kind, a, n, b, nodes);
      sibs := Spliced(sibs, a + nodes + b, {n} - Elems(nodes));
    }

    /** Any run of edits keeps the forest, whether or not the single edits are accepted. */
    method Run(edits: seq<Edit>)
      requires Valid() && forall i :: 0 <= i < |edits| ==> edits[i].OnNodes(|parent|)
      modifies this
      ensures Valid() && kind == old(kind) && |parent| == old(|parent|)
      ensures forall x :: IsNode(x) ==> NodeLaws(Shape(), x)
    {
      for i := 0 to |edits|
        invariant Valid() && kind == old(kind) && |parent| == old(|parent|)
      {
        match edits[i] {
          case Add(n, cur) => var _ := AddChild(n, cur);
          case Append(n, cur) => var _ := AddSibling(n, cur);
          case Swap(n, nodes) =>
            var _ := Replace(n, nodes);
          case Unlink(n) => UnlinkNode(n);
        }
      }
      forall x | IsNode(x) {
        NodeLawsHold(Shape(), sibs, x);
      }
    }
  }
}
