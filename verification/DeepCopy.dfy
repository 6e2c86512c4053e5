/** The copier: it builds the copy node by node in the target document. */
module DeepCopy {
  import opened Namespaces
  import opened CopyTrees
  import opened Wrappers

  type Id = int
  const NONE: Id := -1

  /** The nodes of a document: each without its children, the children, and the parent. */
  datatype Store = Store(cell: seq<Node>, kids: seq<seq<Id>>, parent: seq<Id>) {
    ghost predicate Sized() {
      |cell| == |kids| == |parent|
    }
  }

  /** Where the `i`-th subtree ends. */
  function Bound(ks: seq<Id>, i: nat, hi: Id): Id
    requires i < |ks|
  {
    if i + 1 < |ks| then ks[i + 1] else hi
  }

  /** The nodes from `id` up to `hi` hold the tree `tree`. */
  ghost predicate Holds(s: Store, id: Id, hi: Id, tree: Node)
    requires s.Sized()
    decreases tree
  {
    0 <= id < hi <= |s.cell| &&
    if tree.Elem? then s.cell[id] == tree.(children := []) && Brood(s, id, id + 1, hi, tree.children)
    else s.cell[id] == tree && s.kids[id] == []
  }

  /** The children of `e` hold the trees `done`, side by side between `lo` and `hi`. */
  ghost predicate Brood(s: Store, e: Id, lo: Id, hi: Id, done: seq<Node>)
    requires s.Sized()
    decreases done
  {
    && 0 <= e < lo <= hi <= |s.cell| && |s.kids[e]| == |done|
    && (forall i {:trigger s.kids[e][i]} :: 0 <= i < |done| ==>
      && lo <= s.kids[e][i] < Bound(s.kids[e], i, hi) <= hi && s.parent[s.kids[e][i]] == e)
    && (forall i {:trigger done[i]} :: 0 <= i < |done| ==> Holds(s, s.kids[e][i], Bound(s.kids[e], i, hi), done[i]))
  }

  /** The two stores agree on the nodes from `lo` up to `hi`; what the first of them belongs to may differ. */
  ghost predicate SameOn(s: Store, s': Store, lo: Id, hi: Id)
    requires s.Sized() && s'.Sized()
  {
    hi <= |s.cell| && hi <= |s'.cell|
    && forall i {:trigger s'.cell[i]} {:trigger s'.kids[i]} {:trigger s'.parent[i]} :: 0 <= lo <= i < hi ==>
         s'.cell[i] == s.cell[i] && s'.kids[i] == s.kids[i] && (lo < i ==> s'.parent[i] == s.parent[i])
  }

  lemma {:induction false} HoldsKept(s: Store, s': Store, id: Id, hi: Id, hi': Id, tree: Node)
    requires s.Sized() && s'.Sized() && Holds(s, id, hi, tree) && SameOn(s, s', id, hi) && hi <= hi' <= |s'.cell|
    ensures Holds(s', id, hi', tree)
    decreases tree
  {
    assert s'.cell[id] == s.cell[id];
    if tree.Elem? {
      BroodKept(s, s', id, id + 1, hi, hi', tree.children);
    }
  }

  lemma {:induction false} BroodKept(s: Store, s': Store, e: Id, lo: Id, hi: Id, hi': Id, done: seq<Node>)
    requires s.Sized() && s'.Sized() && Brood(s, e, lo, hi, done) && hi <= hi' <= |s'.cell| && e < |s'.cell|
    requires s'.kids[e] == s.kids[e]
    requires hi <= |s'.cell| && forall i {:trigger s'.cell[i]} {:trigger s'.kids[i]} {:trigger s'.parent[i]} :: lo <= i < hi ==>
      s'.cell[i] == s.cell[i] && s'.kids[i] == s.kids[i] && s'.parent[i] == s.parent[i]
    ensures Brood(s', e, lo, hi', done)
    decreases done
  {
    forall i | 0 <= i < |done| ensures Holds(s', s'.kids[e][i], Bound(s'.kids[e], i, hi'), done[i]) {
      var k := s.kids[e][i];
      assert Holds(s, k, Bound(s.kids[e], i, hi), done[i]);
      HoldsKept(s, s', k, Bound(s.kids[e], i, hi), Bound(s'.kids[e], i, hi'), done[i]);
    }
  }

  /** One more child behind the others. */
  lemma BroodMore(s: Store, s': Store, e: Id, lo: Id, hi: Id, done: seq<Node>, c: Id, child: Node)
    requires s.Sized() && s'.Sized() && Brood(s, e, lo, hi, done) && hi <= c && Holds(s', c, |s'.cell|, child)
    requires e < |s'.cell| && s'.kids[e] == s.kids[e] + [c] && s'.parent[c] == e
    requires hi <= |s'.cell| && forall i {:trigger s'.cell[i]} {:trigger s'.kids[i]} {:trigger s'.parent[i]} :: lo <= i < hi ==>
      s'.cell[i] == s.cell[i] && s'.kids[i] == s.kids[i] && s'.parent[i] == s.parent[i]
    ensures Brood(s', e, lo, |s'.cell|, done + [child])
  {
    var ks, ks' := s.kids[e], s'.kids[e];
    forall i | 0 <= i < |done| + 1 ensures Holds(s', ks'[i], Bound(ks', i, |s'.cell|), (done + [child])[i]) {
      if i < |done| {
        assert Holds(s, ks[i], Bound(ks, i, hi), done[i]);
        assert Bound(ks, i, hi) <= Bound(ks', i, |s'.cell|);
        HoldsKept(s, s', ks[i], Bound(ks, i, hi), Bound(ks', i, |s'.cell|), done[i]);
      }
    }
    forall i | 0 <= i < |done| + 1 ensures lo <= ks'[i] < Bound(ks', i, |s'.cell|) <= |s'.cell| && s'.parent[ks'[i]] == e {
      if i < |done| {
        assert ks'[i] == ks[i];
      }
    }
  }

  /** The last child, a text, has taken in another text. */
  lemma BroodMerged(s: Store, s': Store, e: Id, lo: Id, hi: Id, done: seq<Node>, more: string)
    requires s.Sized() && s'.Sized() && Brood(s, e, lo, hi, done) && done != [] && done[|done| - 1].Text?
    requires hi <= |s'.cell| && s'.kids[e] == s.kids[e] && s'.parent[..hi] == s.parent[..hi]
    requires var t, text := s.kids[e][|done| - 1], Text(done[|done| - 1].content + more);
      && s'.cell[t] == text && s'.kids[t] == s.kids[t]
      && forall i {:trigger s'.cell[i]} {:trigger s'.kids[i]} :: lo <= i < hi && i != t ==>
           s'.cell[i] == s.cell[i] && s'.kids[i] == s.kids[i]
    ensures Brood(s', e, lo, |s'.cell|, done[..|done| - 1] + [Text(done[|done| - 1].content + more)])
  {
    hide Holds;
    var ks, n := s.kids[e], |done| - 1;
    var done' := done[..n] + [Text(done[n].content + more)];
    forall i | lo <= i < hi ensures s'.parent[i] == s.parent[i] {
      assert s'.parent[..hi][i] == s.parent[..hi][i];
    }
    forall i | 0 <= i < |done'| ensures Holds(s', ks[i], Bound(ks, i, |s'.cell|), done'[i]) {
      assert Holds(s, ks[i], Bound(ks, i, hi), done[i]);
      if i == n {
        TextHolds(s, s', ks[n], hi, done[n], done'[n].content);
      } else {
        Apart(ks, i, n, hi);
        HoldsKept(s, s', ks[i], Bound(ks, i, hi), Bound(ks, i, |s'.cell|), done[i]);
      }
    }
  }

  lemma TextHolds(s: Store, s': Store, t: Id, hi: Id, text: Node, content: string)
    requires s.Sized() && s'.Sized() && Holds(s, t, hi, text) && text.Text?
    requires hi <= |s'.cell| && s'.cell[t] == Text(content) && s'.kids[t] == s.kids[t]
    ensures Holds(s', t, |s'.cell|, Text(content))
  {
  }

  lemma {:induction false} Apart(ks: seq<Id>, i: nat, j: nat, hi: Id)
    requires i < j < |ks| && forall k :: 0 <= k < |ks| ==> ks[k] < Bound(ks, k, hi)
    ensures Bound(ks, i, hi) <= ks[j]
    decreases j - i
  {
    if i + 1 < j {
      Apart(ks, i + 1, j, hi);
    }
  }

  /** Which child the `k`-th element child is. */
  function ChildIndex(children: seq<Node>, k: nat): (i: nat)
    requires k < |Elements(children)|
    ensures i < |children| && children[i] == Elements(children)[k]
  {
    var n := |children| - 1;
    if children[n].Elem? && k == |Elements(children)| - 1 then n else ChildIndex(children[..n], k)
  }

  lemma HoldsRoot(s: Store, id: Id, hi: Id, tree: Node)
    requires s.Sized() && Holds(s, id, hi, tree) && tree.Elem?
    ensures 0 <= id < |s.cell| && s.cell[id] == tree.(children := [])
  {
  }

  lemma HoldsChild(s: Store, id: Id, hi: Id, tree: Node, k: nat)
    requires s.Sized() && Holds(s, id, hi, tree) && tree.Elem? && k < |tree.children|
    ensures 0 <= id < |s.kids| && k < |s.kids[id]| && s.cell[id] == tree.(children := [])
    ensures var c := s.kids[id][k];
      id < c < |s.cell| && s.parent[c] == id && Holds(s, c, Bound(s.kids[id], k, hi), tree.children[k])
  {
    assert Brood(s, id, id + 1, hi, tree.children);
  }

  /** The node that holds the element at the end of the path. */
  ghost function NodeAt(s: Store, id: Id, hi: Id, tree: Node, path: seq<nat>): Id
    requires s.Sized() && Holds(s, id, hi, tree) && OnPath(tree, path)
    decreases |path|
  {
    if path == [] then id
    else
      var k := ChildIndex(tree.children, path[0]);
      HoldsChild(s, id, hi, tree, k);
      NodeAt(s, s.kids[id][k], Bound(s.kids[id], k, hi), tree.children[k], path[1..])
  }

  /** Over-declaring pays no attention to the scope. */
  lemma {:induction false} OverIgnoresScope(fastLink: bool, src: Node, a: Scope, b: Scope)
    ensures Copied(Mode(true, fastLink), src, a) == Copied(Mode(true, fastLink), src, b)
    decreases src, 0
  {
    if src.Elem? {
      var mode := Mode(true, fastLink);
      var innerA, innerB := Bind(mode, src.decls, src.active, a).scope, Bind(mode, src.decls, src.active, b).scope;
      OverIgnoresScopeAll(fastLink, src.children, innerA, innerB);
    }
  }

  lemma {:induction false} OverIgnoresScopeAll(fastLink: bool, children: seq<Node>, a: Scope, b: Scope)
    ensures CopiedChildren(Mode(true, fastLink), children, a) == CopiedChildren(Mode(true, fastLink), children, b)
    decreases children, |children|
  {
    if children != [] {
      var n := |children| - 1;
      OverIgnoresScopeAll(fastLink, children[..n], a, b);
      OverIgnoresScope(fastLink, children[n], a, b);
    }
  }

  /** A scope map: shared with the children of an element, never changed once it is. */
  class ScopeMap {
    var m: Scope

    constructor (init: Scope)
      ensures m == init
    {
      m := init;
    }
  }

  ghost function Bindings(scope: ScopeMap?): Scope
    reads scope
  {
    if scope == null then map[] else scope.m
  }

  /** The prefix is in use on the element with another URI. */
  predicate InUse(e: Node, ns: Ns)
    requires e.Elem?
  {
    (e.active.Some? && e.active.value.prefix == ns.prefix && e.active.value.uri != ns.uri)
    || exists i :: 0 <= i < |e.attrs| && e.attrs[i].ns.Some? && e.attrs[i].ns.value.prefix != ""
         && e.attrs[i].ns.value.prefix == ns.prefix && e.attrs[i].ns.value.uri != ns.uri
  }

  /** The same prefix with another URI. */
  predicate UsedOtherwise(used: Option<Ns>, ns: Ns) {
    used.Some? && used.value.prefix == ns.prefix && used.value.uri != ns.uri
  }

  class Document {
    var cell: seq<Node>
    var kids: seq<seq<Id>>
    var parent: seq<Id>

    constructor ()
      ensures Valid() && cell == []
    {
      cell, kids, parent := [], [], [];
    }

    ghost function Nodes(): Store
      reads this
    {
      Store(cell, kids, parent)
    }

    ghost predicate Valid()
      reads this
    {
      Nodes().Sized()
    }

    ghost predicate IsElement(e: Id)
      reads this
    {
      Valid() && 0 <= e < |cell| && cell[e].Elem?
    }

    /** A node without children and without a parent. */
    method Create(n: Node) returns (id: Id)
      requires Valid() && (n.Elem? ==> n.children == [])
      modifies this
      ensures Valid() && id == old(|cell|)
      ensures cell == old(cell) + [n] && kids == old(kids) + [[]] && parent == old(parent) + [NONE]
    {
      id := |cell|;
      cell, kids, parent := cell + [n], kids + [[]], parent + [NONE];
    }

    // ----- namespaces -----

    /** `AddNamespaceDecl` and, on values, `DeclareNamespace`. */
    method AddNamespaceDecl(e: Id, ns: Ns) returns (ok: bool)
      requires IsElement(e)
      modifies this`cell
      ensures Valid() && ok == !InUse(old(cell[e]), ns)
      ensures ok <==> !UsedOtherwise(old(cell[e]).active, ns) && forall i :: 0 <= i < |old(cell[e]).attrs| ==>
        ns.prefix == "" || !UsedOtherwise(old(cell[e]).attrs[i].ns, ns)
      ensures cell == if ok then old(cell)[e := old(cell[e]).(decls := WithDecl(old(cell[e]).decls, ns))] else old(cell)
    {
      if InUse(cell[e], ns) {
        return false;
      }
      ok := true;
      var decls := cell[e].decls;
      var i := 0;
      while i < |decls| && decls[i].prefix != ns.prefix
        invariant 0 <= i <= |decls| && DeclAt(decls, ns.prefix, 0) == DeclAt(decls, ns.prefix, i)
      {
        i := i + 1;
      }
      if i < |decls| {
        if decls[i].uri == ns.uri {
          assert decls[i := ns] == decls;
          return;
        }
        cell := cell[e := cell[e].(decls := decls[i := ns])];
      } else {
        cell := cell[e := cell[e].(decls := decls + [ns])];
      }
    }

    method SetNamespace(e: Id, ns: Ns)
      requires IsElement(e)
      modifies this`cell
      ensures Valid() && cell == old(cell)[e := old(cell[e]).(active := Some(ns))]
    {
      cell := cell[e := cell[e].(active := Some(ns))];
    }

    /** An element as it was created. */
    ghost predicate IsFresh(e: Id)
      reads this
    {
      IsElement(e) && cell[e] == Elem(cell[e].name, [], None, [], [])
    }

    /** On an element that uses no prefix yet, no declaration is refused. */
    method Declare(e: Id, ns: Ns)
      requires IsElement(e) && cell[e].active == None && cell[e].attrs == []
      modifies this`cell
      ensures Valid() && cell == old(cell)[e := old(cell[e]).(decls := WithDecl(old(cell[e]).decls, ns))]
    {
      hide WithDecl;
      var ok := AddNamespaceDecl(e, ns);
    }

    /** `bindNamespacesExact`: the scope map passed in is only read. */
    method BindNamespacesExact(e: Id, decls: seq<Ns>, active: Option<Ns>, inScope: ScopeMap) returns (childScope: ScopeMap)
      requires IsFresh(e)
      modifies this`cell
      ensures Valid() && (childScope == inScope || fresh(childScope))
      ensures var b := BindExact(decls, active, old(inScope.m));
        && cell == old(cell)[e := old(cell[e]).(decls := b.decls, active := b.active)]
        && childScope.m == b.scope
    {
      hide WithDecl;
      childScope := inScope;
      assert cell[e := cell[e].(decls := [])] == cell;
      if |decls| > 0 {
        childScope := new ScopeMap(inScope.m);
        for i := 0 to |decls|
          invariant Valid() && fresh(childScope) && inScope.m == old(inScope.m)
          invariant cell == old(cell)[e := old(cell[e]).(decls := Redeclared(decls[..i]))]
          invariant childScope.m == Declared(decls[..i], inScope.m)
        {
          Declare(e, decls[i]);
          assert decls[..i + 1][..i] == decls[..i];
          childScope.m := childScope.m[decls[i].prefix := decls[i].uri];
        }
        assert decls[..|decls|] == decls;
      }
      if active.Some? && active.value.uri != "" {
        var ns := active.value;
        if ns.prefix !in childScope.m || childScope.m[ns.prefix] != ns.uri {
          Declare(e, ns);
          if |decls| == 0 {
            childScope := new ScopeMap(inScope.m);
          }
          childScope.m := childScope.m[ns.prefix := ns.uri];
        }
        SetNamespace(e, ns);
      }
    }

    /** `bindNamespacesOverDeclare` */
    method BindNamespacesOverDeclare(e: Id, decls: seq<Ns>, active: Option<Ns>)
      requires IsFresh(e)
      modifies this`cell
      ensures Valid()
      ensures var b := BindOver(decls, active, map[]);
        cell == old(cell)[e := old(cell[e]).(decls := b.decls, active := b.active)]
    {
      var declaredPrefixes: set<string> := {};
      assert cell[e := cell[e].(decls := [])] == cell;
      for i := 0 to |decls|
        invariant Valid() && cell == old(cell)[e := old(cell[e]).(decls := Redeclared(decls[..i]))]
        invariant forall p :: p in declaredPrefixes <==> Declares(decls[..i], p)
      {
        Declare(e, decls[i]);
        assert decls[..i + 1][..i] == decls[..i];
        DeclaresMore(decls, i);
        declaredPrefixes := declaredPrefixes + {decls[i].prefix};
      }
      assert decls[..|decls|] == decls;
      if active.Some? {
        if active.value.uri != "" && active.value.prefix !in declaredPrefixes {
          Declare(e, active.value);
        }
        SetNamespace(e, active.value);
      }
    }

    // ----- attributes -----

    /** `addProperty` */
    method AddProperty(e: Id, a: Attr)
      requires IsElement(e)
      modifies this`cell
      ensures Valid() && cell == old(cell)[e := old(cell[e]).(attrs := WithAttr(old(cell[e]).attrs, a))]
      ensures var attrs := old(cell[e]).attrs;
        (forall i :: 0 <= i < |attrs| ==> !Alike(attrs[i], a)) ==> cell[e].attrs == attrs + [a]
      ensures var attrs := old(cell[e]).attrs;
        forall i :: 0 <= i < |attrs| && Alike(attrs[i], a) && (forall j :: 0 <= j < i ==> !Alike(attrs[j], a)) ==>
          cell[e].attrs == attrs[i := a]
    {
      hide Alike, Matches, MatchAt, WithAttr;
      var attrs := cell[e].attrs;
      WithAttrExactly(attrs, a);
      var i := FirstMatch(attrs, a);
      PutWhere(attrs, a);
      cell := cell[e := cell[e].(attrs := if i < |attrs| then attrs[i := a] else attrs + [a])];
    }

    /** The search of `addProperty`. */
    method FirstMatch(attrs: seq<Attr>, a: Attr) returns (i: nat)
      ensures i == MatchAt(attrs, a, 0)
    {
      hide Matches;
      i := 0;
      while i < |attrs| && !Matches(attrs[i], a)
        invariant 0 <= i <= |attrs| && MatchAt(attrs, a, 0) == MatchAt(attrs, a, i)
      {
        i := i + 1;
      }
    }

    /** `copyAttributes`, with the name checks of `SetAttribute` and `SetAttributeNS`. */
    method CopyAttributes(e: Id, attrs: seq<Attr>) returns (ok: bool)
      requires IsElement(e) && cell[e].attrs == []
      modifies this`cell
      ensures Valid() && ok == CopyableAttrs(attrs)
      ensures |cell| == old(|cell|) && forall j :: 0 <= j < |cell| && j != e ==> cell[j] == old(cell[j])
      ensures ok ==> cell == old(cell)[e := old(cell[e]).(attrs := CopiedAttrs(attrs))]
    {
      hide WithAttr, Matches, Alike;
      assert cell[e := cell[e].(attrs := [])] == cell;
      for i := 0 to |attrs|
        invariant Valid() && cell == old(cell)[e := old(cell[e]).(attrs := CopiedAttrs(attrs[..i]))]
        invariant CopyableAttrs(attrs[..i])
      {
        var name := if Uri(attrs[i]) != "" then attrs[i].local else QName(attrs[i]);
        assert attrs[..i + 1][..i] == attrs[..i];
        if ':' in name {
          return false;
        }
        AddProperty(e, CopiedAttr(attrs[i]));
      }
      assert attrs[..|attrs|] == attrs;
      ok := true;
    }

    // ----- copying -----

    /** `AddChild` of a node without a parent, or the unchecked append. */
    method LinkChild(mode: Mode, e: Id, c: Id)
      requires Valid() && 0 <= e < |cell| && 0 <= c < |cell|
      requires kids[e] != [] ==> 0 <= kids[e][|kids[e]| - 1] < |cell|
      modifies this
      ensures Valid() && LinkStep(mode, old(Nodes()), Nodes(), e, c)
    {
      var ks := kids[e];
      if !mode.fastLink && ks != [] && cell[c].Text? && cell[ks[|ks| - 1]].Text? {
        var last := ks[|ks| - 1];
        cell := cell[last := Text(cell[last].content + cell[c].content)];
        return;
      }
      kids, parent := kids[e := ks + [c]], parent[c := e];
    }

    /** The nodes there were are as they were. */
    twostate predicate Kept(n: nat)
      reads this
    {
      && Valid() && n <= |old(cell)| == |old(kids)| == |old(parent)| && n <= |cell|
      && cell[..n] == old(cell[..n]) && kids[..n] == old(kids[..n]) && parent[..n] == old(parent[..n])
    }

    /** `copyNode` */
    method CopyNode(mode: Mode, src: Node, scope: ScopeMap?) returns (ok: bool, id: Id)
      requires Valid() && (scope == null <==> mode.overDeclare)
      modifies this
      ensures Valid() && Kept(|old(cell)|)
      ensures ok == Copyable(src)
      ensures ok ==>
        && |old(cell)| <= id && Holds(Nodes(), id, |cell|, Copied(mode, src, old(Bindings(scope))))
        && parent[id] == NONE
      decreases src, 1
    {
      ok, id := true, NONE;
      match src {
        case Elem(name, _, _, _, _) =>
          ok, id := CopyElement(mode, src, scope);
        case EntityRef(name) =>
          ok := DecodedName(name) != "";
          if ok {
            id := Create(EntityRef(DecodedName(name)));
          }
        case _ =>
          id := Create(src);
      }
    }

    /** `copyElement` */
    method CopyElement(mode: Mode, src: Node, scope: ScopeMap?) returns (ok: bool, id: Id)
      requires Valid() && (scope == null <==> mode.overDeclare) && src.Elem?
      modifies this
      ensures Valid() && Kept(|old(cell)|)
      ensures ok == Copyable(src)
      ensures ok ==>
        && |old(cell)| <= id && Holds(Nodes(), id, |cell|, Copied(mode, src, old(Bindings(scope))))
        && parent[id] == NONE
      decreases src, 0
    {
      hide Bind, CopiedAttrs, CopyableAttrs;
      ok, id := false, NONE;
      if ':' in src.name {
        return;
      }
      id := Create(Elem(src.name, [], None, [], []));
      ghost var b := Bind(mode, src.decls, src.active, old(Bindings(scope)));
      var inner := BindNamespaces(mode, id, src, scope);
      ok := CopyAttributes(id, src.attrs);
      if !ok {
        return;
      }
      ok := CopyChildren(mode, src.children, id, inner);
      if ok && mode.overDeclare {
        OverIgnoresScopeAll(mode.fastLink, src.children, map[], b.scope);
      }
    }

    /** `bindNamespaces`: no scope is tracked when over-declaring. */
    method BindNamespaces(mode: Mode, e: Id, src: Node, scope: ScopeMap?) returns (inner: ScopeMap?)
      requires IsFresh(e) && (scope == null <==> mode.overDeclare) && src.Elem?
      modifies this`cell
      ensures Valid() && (inner == null <==> mode.overDeclare) && (inner == null || inner == scope || fresh(inner))
      ensures var b := Bind(mode, src.decls, src.active, old(Bindings(scope)));
        && cell == old(cell)[e := old(cell[e]).(decls := b.decls, active := b.active)]
        && (inner != null ==> inner.m == b.scope)
    {
      if mode.overDeclare {
        BindNamespacesOverDeclare(e, src.decls, src.active);
        inner := null;
      } else {
        inner := BindNamespacesExact(e, src.decls, src.active, scope);
      }
    }

    /** `copyChildren` */
    method CopyChildren(mode: Mode, children: seq<Node>, e: Id, scope: ScopeMap?) returns (ok: bool)
      requires IsElement(e) && e == |cell| - 1 && kids[e] == [] && (scope == null <==> mode.overDeclare)
      modifies this
      ensures Valid() && Kept(e) && |cell| > e && cell[e] == old(cell[e]) && parent[e] == old(parent[e])
      ensures ok == forall i :: 0 <= i < |children| ==> Copyable(children[i])
      ensures ok ==> Brood(Nodes(), e, e + 1, |cell|, CopiedChildren(mode, children, old(Bindings(scope))))
      decreases children, 2
    {
      hide Copied, Copyable, Holds, Linked, Brood;
      ghost var bindings := Bindings(scope);
      NoBrood(Nodes(), e);
      for i := 0 to |children|
        invariant Valid() && Kept(e) && |cell| > e && cell[e] == old(cell[e]) && parent[e] == old(parent[e])
        invariant forall j :: 0 <= j < i ==> Copyable(children[j])
        invariant Brood(Nodes(), e, e + 1, |cell|, CopiedChildren(mode, children[..i], bindings))
      {
        ok := CopyChild(mode, children[i], e, scope, CopiedChildren(mode, children[..i], bindings));
        if !ok {
          return;
        }
        assert children[..i + 1][..i] == children[..i];
      }
      assert children[..|children|] == children;
      ok := true;
    }

    /** One round of the loop: a child is copied and linked. */
    method CopyChild(mode: Mode, child: Node, e: Id, scope: ScopeMap?, ghost done: seq<Node>) returns (ok: bool)
      requires IsElement(e) && (scope == null <==> mode.overDeclare) && Brood(Nodes(), e, e + 1, |cell|, done)
      modifies this
      ensures Valid() && Kept(e) && |cell| > e && cell[e] == old(cell[e]) && parent[e] == old(parent[e])
      ensures ok == Copyable(child)
      ensures ok ==>
        Brood(Nodes(), e, e + 1, |cell|, Linked(mode, done, Copied(mode, child, old(Bindings(scope)))))
      decreases child, 2
    {
      hide Copied, Copyable, Holds, Linked, Brood;
      ghost var s := Nodes();
      var c;
      ok, c := CopyNode(mode, child, scope);
      KeptBelow(s, Nodes(), e);
      if !ok {
        return;
      }
      ghost var s1 := Nodes();
      LastKind(s, e, e + 1, done);
      HoldsBounds(s1, c, |cell|, Copied(mode, child, old(Bindings(scope))));
      LinkChild(mode, e, c);
      LinkHolds(mode, s, s1, Nodes(), e, e + 1, done, c, Copied(mode, child, old(Bindings(scope))));
    }

    // ----- looking up -----

    /** The declarations of `e` and of the elements above it, outermost first. */
    ghost function Ancestry(e: Id): seq<seq<Ns>>
      requires Valid() && RootedAt(e)
      reads this
      decreases e
    {
      (if 0 <= parent[e] then Ancestry(parent[e]) else []) + if cell[e].Elem? then [cell[e].decls] else []
    }

    /** Parents were created before their children. */
    ghost predicate RootedAt(e: Id)
      requires Valid()
      reads this
      decreases e
    {
      0 <= e < |cell| && parent[e] < e && (0 <= parent[e] ==> RootedAt(parent[e]))
    }

    /** The ancestry of the element at the end of a path in a tree of the document. */
    lemma {:induction false} AncestryAt(id: Id, hi: Id, tree: Node, path: seq<nat>)
      requires Valid() && RootedAt(id) && Holds(Nodes(), id, hi, tree) && OnPath(tree, path)
      ensures var n := NodeAt(Nodes(), id, hi, tree, path);
        && RootedAt(n)
        && Ancestry(n) == (if 0 <= parent[id] then Ancestry(parent[id]) else []) + ChainTo(tree, path)
      decreases |path|
    {
      hide Holds, Elements, ChildIndex;
      var outer := if 0 <= parent[id] then Ancestry(parent[id]) else [];
      HoldsRoot(Nodes(), id, hi, tree);
      if path != [] {
        var k := ChildIndex(tree.children, path[0]);
        HoldsChild(Nodes(), id, hi, tree, k);
        var c := kids[id][k];
        AncestryAt(c, Bound(kids[id], k, hi), tree.children[k], path[1..]);
        JoinChains(outer, [tree.decls], ChainTo(tree.children[k], path[1..]));
      }
    }

    /**
     * On the finished copy of a document element, the walk up the ancestors finds for every prefix what the scope map
     * held while copying; and what the same walk finds in the source, if the source is consistent.
     */
    lemma CopyLookups(mode: Mode, src: Node, id: Id, path: seq<nat>, prefix: string)
      requires Valid() && RootedAt(id) && parent[id] < 0 && OnPath(src, path)
      requires Holds(Nodes(), id, |cell|, Copied(mode, src, map[]))
      ensures OnPath(Copied(mode, src, map[]), path)
      ensures var n := NodeAt(Nodes(), id, |cell|, Copied(mode, src, map[]), path);
        && RootedAt(n)
        && Lookup(Ancestry(n), prefix) == Resolve(HandedDown(mode, src, path, map[]), prefix)
        && (TreeOnePerPrefix(src) && Consistent(mode, src, map[]) ==>
             Lookup(Ancestry(n), prefix) == Lookup(ChainTo(src, path), prefix))
    {
      hide Copied, Holds, Bind;
      ScopeMapIsWalk(mode, src, path, prefix);
      AncestryAt(id, |cell|, Copied(mode, src, map[]), path);
      assert [] + ChainTo(Copied(mode, src, map[]), path) == ChainTo(Copied(mode, src, map[]), path);
      if TreeOnePerPrefix(src) && Consistent(mode, src, map[]) {
        LookupsKept(mode, src, path, prefix);
      }
    }

    /** `LookupNSByPrefix` */
    method LookupNSByPrefix(e: Id, prefix: string) returns (uri: Option<string>)
      requires Valid() && RootedAt(e)
      ensures uri == Lookup(Ancestry(e), prefix)
    {
      var node := e;
      while 0 <= node
        invariant 0 <= node ==> RootedAt(node) && Lookup(Ancestry(e), prefix) == Lookup(Ancestry(node), prefix)
        invariant node < 0 ==> Lookup(Ancestry(e), prefix) == Lookup([], prefix)
        decreases node
      {
        if cell[node].Elem? {
          var decls := cell[node].decls;
          ghost var outer := if 0 <= parent[node] then Ancestry(parent[node]) else [];
          assert Ancestry(node) == outer + [decls] && (outer + [decls])[..|outer|] == outer;
          for i := 0 to |decls|
            invariant DeclAt(decls, prefix, 0) == DeclAt(decls, prefix, i)
          {
            if decls[i].prefix == prefix {
              return Some(decls[i].uri);
            }
          }
        }
        assert Lookup(Ancestry(node), prefix) == Lookup(if 0 <= parent[node] then Ancestry(parent[node]) else [], prefix) by {
          if !cell[node].Elem? {
            assert Ancestry(node) == if 0 <= parent[node] then Ancestry(parent[node]) else [];
          }
        }
        node := parent[node];
      }
      uri := if prefix == "xml" then Some(XML_URI) else None;
    }
  }

  /** The store after `child`, held by `c`, is linked behind the children of `e`. */
  ghost predicate LinkStep(mode: Mode, s: Store, s': Store, e: Id, c: Id)
    requires s.Sized() && s'.Sized() && 0 <= e < |s.cell| && 0 <= c < |s.cell|
  {
    var ks := s.kids[e];
    if !mode.fastLink && s.cell[c].Text? && ks != [] && 0 <= ks[|ks| - 1] < |s.cell| && s.cell[ks[|ks| - 1]].Text? then
      && s' == s.(cell := s.cell[ks[|ks| - 1] := Text(s.cell[ks[|ks| - 1]].content + s.cell[c].content)])
    else s' == s.(kids := s.kids[e := ks + [c]], parent := s.parent[c := e])
  }

  /** A copied child is linked: `s` before it was copied, `s1` after, `s2` with it linked. */
  lemma LinkHolds(mode: Mode, s: Store, s1: Store, s2: Store, e: Id, lo: Id, done: seq<Node>, c: Id, child: Node)
    requires s.Sized() && s1.Sized() && s2.Sized() && e < lo && Brood(s, e, lo, |s.cell|, done)
    requires |s.cell| <= c && Holds(s1, c, |s1.cell|, child) && LinkStep(mode, s1, s2, e, c)
    requires s1.cell[..|s.cell|] == s.cell && s1.kids[..|s.cell|] == s.kids && s1.parent[..|s.cell|] == s.parent
    ensures Brood(s2, e, lo, |s2.cell|, Linked(mode, done, child))
    ensures |s2.cell| == |s1.cell| && s2.parent[..lo] == s.parent[..lo]
    ensures forall j :: 0 <= j < lo ==> s2.cell[j] == s.cell[j] && (j != e ==> s2.kids[j] == s.kids[j])
  {
    hide Holds, Brood;
    LastKind(s, e, lo, done);
    HoldsBounds(s1, c, |s1.cell|, child);
    HoldsKind(s1, c, |s1.cell|, child);
    var n, ks := |s.cell|, s.kids[e];
    forall j | 0 <= j < n ensures s1.cell[j] == s.cell[j] && s1.kids[j] == s.kids[j] && s1.parent[j] == s.parent[j] {
      assert s1.cell[..n][j] == s.cell[j] && s1.kids[..n][j] == s.kids[j] && s1.parent[..n][j] == s.parent[j];
    }
    if Linked(mode, done, child) == done + [child] && s2.kids[e] == ks + [c] {
      HoldsKept(s1, s2, c, |s1.cell|, |s2.cell|, child);
      BroodMore(s, s2, e, lo, n, done, c, child);
    } else {
      BroodMerged(s, s2, e, lo, n, done, child.content);
    }
  }

  lemma NoBrood(s: Store, e: Id)
    requires s.Sized() && 0 <= e < |s.cell| && s.kids[e] == []
    ensures Brood(s, e, e + 1, |s.cell|, [])
  {
  }

  lemma HoldsBounds(s: Store, id: Id, hi: Id, tree: Node)
    requires s.Sized() && Holds(s, id, hi, tree)
    ensures 0 <= id < hi <= |s.cell|
  {
  }

  lemma HoldsKind(s: Store, id: Id, hi: Id, tree: Node)
    requires s.Sized() && Holds(s, id, hi, tree)
    ensures (s.cell[id].Text? <==> tree.Text?) && (tree.Text? ==> s.cell[id] == tree)
  {
  }

  lemma KeptBelow(s: Store, s1: Store, e: Id)
    requires s.Sized() && s1.Sized() && 0 <= e < |s.cell| <= |s1.cell|
    requires s1.cell[..|s.cell|] == s.cell && s1.kids[..|s.cell|] == s.kids && s1.parent[..|s.cell|] == s.parent
    ensures s1.cell[..e] == s.cell[..e] && s1.kids[..e] == s.kids[..e] && s1.parent[..e] == s.parent[..e]
    ensures s1.cell[e] == s.cell[e] && s1.kids[e] == s.kids[e] && s1.parent[e] == s.parent[e]
  {
    assert s1.cell[..|s.cell|][e] == s.cell[e] && s1.kids[..|s.cell|][e] == s.kids[e];
    assert s1.parent[..|s.cell|][e] == s.parent[e];
    assert s1.cell[..|s.cell|][..e] == s1.cell[..e] && s1.kids[..|s.cell|][..e] == s1.kids[..e];
    assert s1.parent[..|s.cell|][..e] == s1.parent[..e];
  }

  lemma LastKind(s: Store, e: Id, lo: Id, done: seq<Node>)
    requires s.Sized() && Brood(s, e, lo, |s.cell|, done)
    ensures 0 <= e < lo <= |s.cell| && |s.kids[e]| == |done|
    ensures done != [] ==>
      var t := s.kids[e][|done| - 1];
      0 <= t < |s.cell| && lo <= t && (s.cell[t].Text? <==> done[|done| - 1].Text?)
      && (s.cell[t].Text? ==> s.cell[t] == done[|done| - 1])
  {
    if done != [] {
      var n := |done| - 1;
      assert Holds(s, s.kids[e][n], Bound(s.kids[e], n, |s.cell|), done[n]);
    }
  }

  lemma DeclaresMore(decls: seq<Ns>, i: nat)
    requires i < |decls|
    ensures forall p :: Declares(decls[..i + 1], p) <==> Declares(decls[..i], p) || p == decls[i].prefix
  {
    var a, b := decls[..i], decls[..i + 1];
    forall p ensures Declares(b, p) <==> Declares(a, p) || p == decls[i].prefix {
      if Declares(a, p) {
        var k :| 0 <= k < |a| && a[k].prefix == p;
        assert b[k].prefix == p;
      }
      if p == decls[i].prefix {
        assert b[i].prefix == p;
      }
    }
  }
}
