/** The traversal that `Walk` performs, written as a recursion, and when it reports a cycle. */
module DomWalk {
  import opened DomLinks
  import opened DomGraph

  datatype Status = Done | Cycle | Stopped

  /** The visits made so far, and how the traversal ended. */
  datatype Outcome = Outcome(log: seq<Ref>, status: Status)

  /** Whether the visitor fails, given every visit so far including the current one. */
  type Visitor = seq<Ref> -> bool

  ghost function Nodes(l: Links): (s: set<Ref>)
    ensures forall x :: x in s <==> l.Node(x)
  {
    set x | 0 < x < |l.parent| && l.Node(x)
  }

  /** Pre-order from `x`, below the nodes of `path`. */
  ghost function Visit(l: Links, fails: Visitor, x: Ref, path: set<Ref>, log: seq<Ref>): Outcome
    requires Closed(l) && l.Node(x) && x !in path
    decreases Nodes(l) - path, 0
  {
    if fails(log + [x]) then Outcome(log + [x], Stopped)
    else VisitList(l, fails, x, l.first[x], {}, path + {x}, log + [x])
  }

  /** The children of `owner` from `c` on, those of `seen` being enumerated already. */
  ghost function VisitList(
    l: Links, fails: Visitor, owner: Ref, c: Ref, seen: set<Ref>, path: set<Ref>, log: seq<Ref>): Outcome
    requires Closed(l) && l.Node(owner) && (c == NIL || l.Node(c))
    decreases Nodes(l) - path, 1, Nodes(l) - seen
  {
    if c == NIL then Outcome(log, Done)
    else if c in path || c in seen then Outcome(log, Cycle)
    else
      var r := Visit(l, fails, c, path, log);
      if r.status != Done then r
      else VisitList(l, fails, owner, OwnedNext(l, owner, c), seen + {c}, path, r.log)
  }

  // ----- the explicit stack -----

  datatype Frame = Frame(node: Ref, entered: bool, activeChild: Ref, seen: set<Ref>)

  /** The frames after the top one was popped: the one below moves on to its next child. */
  ghost function Advanced(l: Links, frames: seq<Frame>): (r: seq<Frame>)
    requires |frames| > 0 ==>
      var f := frames[|frames| - 1]; 0 <= f.activeChild < |l.parent| && 0 <= f.activeChild < |l.next|
  {
    if frames == [] then []
    else
      var i := |frames| - 1;
      frames[i := frames[i].(activeChild := OwnedNext(l, frames[i].node, frames[i].activeChild))]
  }

  ghost function OnPath(frames: seq<Frame>): set<Ref> {
    set i | 0 <= i < |frames| :: frames[i].node
  }

  /** The nodes of the entered frames, when only the top one may be new. */
  ghost function Entered(frames: seq<Frame>): set<Ref> {
    if frames == [] then {}
    else if frames[|frames| - 1].entered then OnPath(frames)
    else OnPath(frames[..|frames| - 1])
  }

  /** The shape of the stack between two steps: below the top, every frame waits for its active child. */
  ghost predicate Frames(l: Links, frames: seq<Frame>)
    requires Closed(l)
  {
    && (forall i :: 0 <= i < |frames| ==> l.Node(frames[i].node))
    && (forall i, j :: 0 <= i < j < |frames| ==> frames[i].node != frames[j].node)
    && (forall i :: 0 <= i < |frames| ==> frames[i].activeChild == NIL || l.Node(frames[i].activeChild))
    && (forall i :: 0 <= i < |frames| - 1 ==> frames[i].entered && frames[i].activeChild != NIL)
  }

  lemma AdvancedFrames(l: Links, frames: seq<Frame>)
    requires Closed(l) && Frames(l, frames) && |frames| > 0
    ensures Frames(l, Advanced(l, frames[..|frames| - 1]))
    ensures OnPath(Advanced(l, frames[..|frames| - 1])) == OnPath(frames[..|frames| - 1])
  {
    var below := frames[..|frames| - 1];
    var r := Advanced(l, below);
    assert forall i :: 0 <= i < |r| ==> r[i].node == below[i].node == frames[i].node;
    assert forall x :: x in OnPath(r) <==> x in OnPath(below);
  }

  /** What running the frames from the top down comes to. */
  ghost function Rest(l: Links, fails: Visitor, frames: seq<Frame>, log: seq<Ref>): Outcome
    requires Closed(l) && Frames(l, frames)
    decreases |frames|
  {
    if frames == [] then Outcome(log, Done)
    else
      var top, below := frames[|frames| - 1], frames[..|frames| - 1];
      var r :=
        if top.entered then VisitList(l, fails, top.node, top.activeChild, top.seen, OnPath(below) + {top.node}, log)
        else Visit(l, fails, top.node, OnPath(below), log);
      AdvancedFrames(l, frames);
      if r.status != Done then r else Rest(l, fails, Advanced(l, below), r.log)
  }

  /** A bound on the steps left, to show that the loop ends. */
  ghost function VisitCost(l: Links, x: Ref, path: set<Ref>): nat
    requires Closed(l) && l.Node(x) && x !in path
    decreases Nodes(l) - path, 0
  {
    1 + ListCost(l, x, l.first[x], {}, path + {x})
  }

  ghost function ListCost(l: Links, owner: Ref, c: Ref, seen: set<Ref>, path: set<Ref>): nat
    requires Closed(l) && l.Node(owner) && (c == NIL || l.Node(c))
    decreases Nodes(l) - path, 1, Nodes(l) - seen
  {
    if c == NIL || c in path || c in seen then 1
    else 1 + VisitCost(l, c, path) + ListCost(l, owner, OwnedNext(l, owner, c), seen + {c}, path)
  }

  ghost function FramesCost(l: Links, frames: seq<Frame>): nat
    requires Closed(l) && Frames(l, frames)
    decreases |frames|
  {
    if frames == [] then 0
    else
      var top, below := frames[|frames| - 1], frames[..|frames| - 1];
      AdvancedFrames(l, frames);
      (if top.entered then ListCost(l, top.node, top.activeChild, top.seen, OnPath(below) + {top.node})
       else VisitCost(l, top.node, OnPath(below)))
      + FramesCost(l, Advanced(l, below))
  }

  lemma OnPathGrows(frames: seq<Frame>, f: Frame)
    ensures OnPath(frames + [f]) == OnPath(frames) + {f.node}
  {
    var longer := frames + [f];
    assert longer[|frames|] == f;
    assert forall i :: 0 <= i < |frames| ==> longer[i] == frames[i];
    forall x | x in OnPath(frames) ensures x in OnPath(longer) {
      var i :| 0 <= i < |frames| && frames[i].node == x;
      assert longer[i].node == x;
    }
  }

  lemma NothingLeft(l: Links, fails: Visitor, log: seq<Ref>)
    requires Closed(l) && Frames(l, [])
    ensures Rest(l, fails, [], log) == Outcome(log, Done)
  {
  }

  lemma StartStep(l: Links, fails: Visitor, x: Ref)
    requires Closed(l) && l.Node(x)
    ensures var frames := [Frame(x, false, NIL, {})];
      && Frames(l, frames) && Entered(frames) == {}
      && Rest(l, fails, frames, []) == Visit(l, fails, x, {}, [])
  {
    var frames := [Frame(x, false, NIL, {})];
    assert frames[..0] == [];
  }

  lemma StopStep(l: Links, fails: Visitor, frames: seq<Frame>, log: seq<Ref>)
    requires Closed(l) && Frames(l, frames) && frames != [] && !frames[|frames| - 1].entered
    requires fails(log + [frames[|frames| - 1].node])
    ensures Rest(l, fails, frames, log) == Outcome(log + [frames[|frames| - 1].node], Stopped)
  {
  }

  lemma EnterStep(l: Links, fails: Visitor, frames: seq<Frame>, log: seq<Ref>)
    requires Closed(l) && Frames(l, frames) && |frames| > 0 && !frames[|frames| - 1].entered
    requires !fails(log + [frames[|frames| - 1].node])
    ensures var x := frames[|frames| - 1].node;
      var frames' := frames[|frames| - 1 := Frame(x, true, l.first[x], {})];
      && Frames(l, frames') && Entered(frames') == Entered(frames) + {x}
      && Rest(l, fails, frames', log + [x]) == Rest(l, fails, frames, log)
      && FramesCost(l, frames') < FramesCost(l, frames)
  {
    var x := frames[|frames| - 1].node;
    var frames' := frames[|frames| - 1 := Frame(x, true, l.first[x], {})];
    var below := frames[..|frames| - 1];
    assert frames' == below + [Frame(x, true, l.first[x], {})];
    OnPathGrows(below, Frame(x, true, l.first[x], {}));
  }

  lemma LeaveStep(l: Links, fails: Visitor, frames: seq<Frame>, log: seq<Ref>)
    requires Closed(l) && Frames(l, frames) && |frames| > 0
    requires frames[|frames| - 1].entered && frames[|frames| - 1].activeChild == NIL
    ensures var frames' := Advanced(l, frames[..|frames| - 1]);
      && Frames(l, frames') && Entered(frames') == Entered(frames) - {frames[|frames| - 1].node}
      && Rest(l, fails, frames', log) == Rest(l, fails, frames, log)
      && FramesCost(l, frames') < FramesCost(l, frames)
  {
    AdvancedFrames(l, frames);
    var below := frames[..|frames| - 1];
    assert frames == below + [frames[|frames| - 1]];
    OnPathGrows(below, frames[|frames| - 1]);
  }

  ghost function Marked(frames: seq<Frame>): seq<Frame>
    requires |frames| > 0
  {
    var f := frames[|frames| - 1];
    frames[|frames| - 1 := f.(seen := f.seen + {f.activeChild})]
  }

  ghost function Descended(frames: seq<Frame>): seq<Frame>
    requires |frames| > 0
  {
    Marked(frames) + [Frame(frames[|frames| - 1].activeChild, false, NIL, {})]
  }

  ghost predicate CanDescend(l: Links, frames: seq<Frame>)
    requires Closed(l)
  {
    && Frames(l, frames) && |frames| > 0 && frames[|frames| - 1].entered
    && var f := frames[|frames| - 1];
      f.activeChild != NIL && f.activeChild !in OnPath(frames) && f.activeChild !in f.seen
  }

  lemma DescendShape(l: Links, frames: seq<Frame>)
    requires Closed(l) && CanDescend(l, frames)
    ensures Frames(l, Descended(frames)) && Frames(l, Advanced(l, Marked(frames)))
    ensures OnPath(Marked(frames)) == OnPath(frames) == OnPath(frames[..|frames| - 1]) + {frames[|frames| - 1].node}
    ensures Advanced(l, Marked(frames))[..|frames| - 1] == frames[..|frames| - 1]
    ensures Descended(frames)[..|frames|] == Marked(frames)
  {
    var n := |frames| - 1;
    var f, marked, frames' := frames[n], Marked(frames), Descended(frames);
    forall i, j | 0 <= i < j < |frames'| ensures frames'[i].node != frames'[j].node {
      assert frames'[i].node == frames[i].node && frames[i].node in OnPath(frames);
    }
    assert marked == frames[..n] + [marked[n]] && frames == frames[..n] + [f];
    OnPathGrows(frames[..n], marked[n]);
    OnPathGrows(frames[..n], f);
  }

  lemma DescendRest(l: Links, fails: Visitor, frames: seq<Frame>, log: seq<Ref>)
    requires Closed(l) && CanDescend(l, frames) && Frames(l, Descended(frames))
    ensures Rest(l, fails, Descended(frames), log) == Rest(l, fails, frames, log)
  {
    DescendShape(l, frames);
    var n := |frames| - 1;
    var f, next := frames[n], Advanced(l, Marked(frames));
    var r := Visit(l, fails, f.activeChild, OnPath(frames), log);
    assert Rest(l, fails, Descended(frames), log) == if r.status != Done then r else Rest(l, fails, next, r.log);
  }

  lemma DescendCost(l: Links, frames: seq<Frame>)
    requires Closed(l) && CanDescend(l, frames) && Frames(l, Descended(frames))
    ensures FramesCost(l, Descended(frames)) < FramesCost(l, frames)
  {
    DescendShape(l, frames);
    var f, next := frames[|frames| - 1], Advanced(l, Marked(frames));
    assert FramesCost(l, Descended(frames)) == VisitCost(l, f.activeChild, OnPath(frames)) + FramesCost(l, next);
  }

  lemma DescendStep(l: Links, fails: Visitor, frames: seq<Frame>, log: seq<Ref>)
    requires Closed(l) && CanDescend(l, frames)
    ensures var frames' := Descended(frames);
      && Frames(l, frames') && Entered(frames') == Entered(frames)
      && Rest(l, fails, frames', log) == Rest(l, fails, frames, log)
      && FramesCost(l, frames') < FramesCost(l, frames)
  {
    DescendShape(l, frames);
    DescendRest(l, fails, frames, log);
    DescendCost(l, frames);
  }

  lemma StuckStep(l: Links, fails: Visitor, frames: seq<Frame>, log: seq<Ref>)
    requires Closed(l) && Frames(l, frames) && |frames| > 0 && frames[|frames| - 1].entered
    requires var f := frames[|frames| - 1];
      f.activeChild != NIL && (f.activeChild in OnPath(frames) || f.activeChild in f.seen)
    ensures Rest(l, fails, frames, log) == Outcome(log, Cycle)
  {
    var below := frames[..|frames| - 1];
    assert frames == below + [frames[|frames| - 1]];
    OnPathGrows(below, frames[|frames| - 1]);
  }
}
