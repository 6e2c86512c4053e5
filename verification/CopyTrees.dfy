/** What a deep copy yields, and what it keeps of the source. */
module CopyTrees {
  import opened Namespaces
  import opened Wrappers

  /** `ns` of an attribute is absent when it is in no namespace. */
  datatype Attr = Attr(local: string, ns: Option<Ns>, value: string)

  datatype Node =
    | Elem(name: string, decls: seq<Ns>, active: Option<Ns>, attrs: seq<Attr>, children: seq<Node>)
    | Text(content: string)
    | CData(content: string)
    | Comment(content: string)
    | ProcInst(name: string, content: string)
    | EntityRef(name: string)

  /** Declare the active namespace on every element that does not, or only where it is missing; append children as they are. */
  datatype Mode = Mode(overDeclare: bool, fastLink: bool)

  // ----- attributes -----

  function Uri(a: Attr): string {
    if a.ns.Some? then a.ns.value.uri else ""
  }

  function QName(a: Attr): string {
    if a.ns.Some? && a.ns.value.prefix != "" then a.ns.value.prefix + ":" + a.local else a.local
  }

  /** `attrMatches`: the same expanded name, or the same qualified name. */
  predicate Matches(a: Attr, b: Attr) {
    (Uri(a) == Uri(b) && a.local == b.local) || QName(a) == QName(b)
  }

  function MatchAt(attrs: seq<Attr>, a: Attr, from: nat): (i: nat)
    requires from <= |attrs|
    ensures from <= i <= |attrs| && (i < |attrs| ==> Matches(attrs[i], a))
    ensures forall j :: from <= j < i ==> !Matches(attrs[j], a)
    decreases |attrs| - from
  {
    if from == |attrs| || Matches(attrs[from], a) then from else MatchAt(attrs, a, from + 1)
  }

  /** `addProperty`: the first match is replaced where it stands. */
  function WithAttr(attrs: seq<Attr>, a: Attr): (r: seq<Attr>)
    ensures |attrs| <= |r| <= |attrs| + 1
  {
    var i := MatchAt(attrs, a, 0);
    if i < |attrs| then attrs[i := a] else attrs + [a]
  }

  function CopiedAttr(a: Attr): Attr {
    if Uri(a) != "" then a else Attr(QName(a), None, a.value)
  }

  function CopiedAttrs(attrs: seq<Attr>): (r: seq<Attr>)
    ensures |r| <= |attrs|
  {
    if attrs == [] then [] else WithAttr(CopiedAttrs(attrs[..|attrs| - 1]), CopiedAttr(attrs[|attrs| - 1]))
  }

  /** The attributes are as a namespace-aware parser leaves them. */
  predicate PlainAttrs(attrs: seq<Attr>) {
    forall i :: 0 <= i < |attrs| ==> attrs[i].ns.Some? ==> attrs[i].ns.value.uri != ""
  }

  /** The namespace names and local names are the same, or what is written before the equals sign. */
  predicate Alike(a: Attr, b: Attr) {
    || (a.local == b.local
        && (if a.ns.Some? then a.ns.value.uri else "") == (if b.ns.Some? then b.ns.value.uri else ""))
    || (if a.ns.Some? && a.ns.value.prefix != "" then a.ns.value.prefix + ":" else "") + a.local
        == (if b.ns.Some? && b.ns.value.prefix != "" then b.ns.value.prefix + ":" else "") + b.local
  }

  predicate DistinctAttrs(attrs: seq<Attr>) {
    forall i, j :: 0 <= i < j < |attrs| ==> !Alike(attrs[i], attrs[j])
  }

  lemma MatchesExactly(a: Attr, b: Attr)
    ensures Matches(a, b) <==> Alike(a, b)
  {
    assert "" + a.local == a.local && "" + b.local == b.local;
  }

  /** Copying keeps the value, the local part and the namespace; one without a URI is left out. */
  lemma AttrCopied(a: Attr)
    ensures CopiedAttr(a).value == a.value && Alike(CopiedAttr(a), a)
    ensures a.ns.Some? && a.ns.value.uri != "" ==> CopiedAttr(a) == a
    ensures a.ns.None? ==> CopiedAttr(a) == a
  {
    MatchesExactly(CopiedAttr(a), a);
  }

  lemma PutWhere(attrs: seq<Attr>, a: Attr)
    ensures MatchAt(attrs, a, 0) <= |attrs|
    ensures WithAttr(attrs, a) ==
      if MatchAt(attrs, a, 0) < |attrs| then attrs[MatchAt(attrs, a, 0) := a] else attrs + [a]
  {
    hide Matches;
  }

  /** An attribute that is like no other is added behind them; otherwise it replaces the first that is like it. */
  lemma WithAttrExactly(attrs: seq<Attr>, a: Attr)
    ensures (forall i :: 0 <= i < |attrs| ==> !Alike(attrs[i], a)) ==> WithAttr(attrs, a) == attrs + [a]
    ensures forall i :: 0 <= i < |attrs| && Alike(attrs[i], a) && (forall j :: 0 <= j < i ==> !Alike(attrs[j], a)) ==>
      WithAttr(attrs, a) == attrs[i := a]
  {
    hide Matches, Alike;
    forall i | 0 <= i < |attrs| ensures Matches(attrs[i], a) <==> Alike(attrs[i], a) {
      MatchesExactly(attrs[i], a);
    }
  }

  /** One more attribute, behind ones that came through unchanged. */
  lemma OneMoreAttr(attrs: seq<Attr>)
    requires attrs != []
    ensures var n := |attrs| - 1;
      WithAttr(attrs[..n], attrs[n]) == attrs <==> forall i :: 0 <= i < n ==> !Alike(attrs[i], attrs[n])
    ensures var r := WithAttr(attrs[..|attrs| - 1], attrs[|attrs| - 1]); r == attrs || |r| < |attrs|
  {
    hide Matches, Alike;
    var n := |attrs| - 1;
    var i := MatchAt(attrs[..n], attrs[n], 0);
    assert attrs == attrs[..n] + [attrs[n]];
    forall k | 0 <= k < n ensures Matches(attrs[k], attrs[n]) <==> Alike(attrs[k], attrs[n]) {
      MatchesExactly(attrs[k], attrs[n]);
    }
    if i < n {
      assert Matches(attrs[i], attrs[n]);
    }
  }

  /** Attributes come through unchanged exactly when no two share the expanded name and no two the qualified name. */
  lemma {:induction false} CopiedAttrsExact(attrs: seq<Attr>)
    requires PlainAttrs(attrs)
    ensures CopiedAttrs(attrs) == attrs <==> DistinctAttrs(attrs)
    ensures !DistinctAttrs(attrs) ==> |CopiedAttrs(attrs)| < |attrs|
  {
    hide Matches, Alike, WithAttr;
    if attrs != [] {
      var n := |attrs| - 1;
      CopiedAttrsExact(attrs[..n]);
      assert CopiedAttr(attrs[n]) == attrs[n];
      OneMoreAttr(attrs);
    }
  }

  /** `p:local` and `q:local` both come through unless their prefixes are the same or bound to the same URI. */
  lemma TwoPrefixes(local: string, a: Ns, b: Ns, x: string, y: string)
    requires a.prefix != "" && b.prefix != "" && a.uri != "" && b.uri != ""
    ensures CopiedAttrs([Attr(local, Some(a), x), Attr(local, Some(b), y)]) ==
      if a.prefix == b.prefix || a.uri == b.uri then [Attr(local, Some(b), y)]
      else [Attr(local, Some(a), x), Attr(local, Some(b), y)]
  {
    hide MatchAt;
    var p, q := Attr(local, Some(a), x), Attr(local, Some(b), y);
    assert [p, q][..1] == [p] && [p][..0] == [];
    assert MatchAt([], p, 0) == 0;
    assert CopiedAttrs([p]) == [p];
    if a.prefix != b.prefix && QName(p) == QName(q) {
      assert a.prefix + ":" + local == a.prefix + (":" + local) && b.prefix + ":" + local == b.prefix + (":" + local);
      SamePrefix(a.prefix, b.prefix, ":" + local);
    }
    assert MatchAt([p], q, 0) == if Matches(p, q) then 0 else 1;
    assert [p][0 := q] == [q] && [p] + [q] == [p, q];
  }

  lemma SamePrefix(p: string, q: string, rest: string)
    requires p + rest == q + rest
    ensures p == q
  {
    assert |p| == |q|;
    assert (p + rest)[..|p|] == p && (q + rest)[..|q|] == q;
  }

  // ----- what can be copied -----

  function DecodedName(name: string): string {
    if name == "" || name[0] != '&' then name
    else if name[|name| - 1] == ';' then name[1..|name| - 1]
    else name[1..]
  }

  /** The name of a reference, without what it is written in. */
  lemma DecodedExactly(n: string)
    ensures DecodedName("&" + n + ";") == n
    ensures n == "" || n[0] != '&' ==> DecodedName(n) == n
    ensures n != "" && n[|n| - 1] != ';' ==> DecodedName("&" + n) == n
  {
    assert ("&" + n + ";")[1..|n| + 1] == n && ("&" + n)[1..] == n;
  }

  /** No constructor refuses a name. */
  predicate Copyable(src: Node)
    decreases src
  {
    match src
    case EntityRef(name) => DecodedName(name) != ""
    case Elem(name, _, _, attrs, children) =>
      ':' !in name && CopyableAttrs(attrs) && forall i :: 0 <= i < |children| ==> Copyable(children[i])
    case _ => true
  }

  predicate CopyableAttrs(attrs: seq<Attr>) {
    forall i :: 0 <= i < |attrs| ==> ':' !in (if Uri(attrs[i]) != "" then attrs[i].local else QName(attrs[i]))
  }

  /** What is refused, written out: colons in local names, prefixes without a URI, references without a name. */
  lemma CopyableExactly(src: Node)
    ensures src.Elem? ==>
      (Copyable(src) <==>
        && ':' !in src.name && (forall i :: 0 <= i < |src.attrs| ==> AttrNamed(src.attrs[i]))
        && forall i :: 0 <= i < |src.children| ==> Copyable(src.children[i]))
    ensures src.EntityRef? ==> (Copyable(src) <==> src.name != "" && src.name != "&" && src.name != "&;")
    ensures !src.Elem? && !src.EntityRef? ==> Copyable(src)
  {
    if src.Elem? {
      forall i | 0 <= i < |src.attrs|
        ensures ':' !in (if Uri(src.attrs[i]) != "" then src.attrs[i].local else QName(src.attrs[i])) <==>
          AttrNamed(src.attrs[i])
      {
        var a := src.attrs[i];
        if a.ns.Some? && a.ns.value.prefix != "" {
          assert QName(a)[|a.ns.value.prefix|] == ':';
        }
      }
    }
    if src.EntityRef? && src.name != "" && src.name[0] == '&' {
      assert src.name == "&" + src.name[1..];
      assert |src.name| == 2 && src.name[1] == ';' ==> src.name == "&;";
    }
  }

  predicate AttrNamed(a: Attr) {
    ':' !in a.local && (a.ns.Some? && a.ns.value.uri == "" ==> a.ns.value.prefix == "")
  }

  // ----- the copy -----

  /** The declarations, the active namespace and the inner scope of a copied element. */
  datatype Binding = Binding(decls: seq<Ns>, active: Option<Ns>, scope: Scope)

  /** `bindNamespacesExact`: `scope` is what the ancestors of the copy declare. */
  function BindExact(decls: seq<Ns>, active: Option<Ns>, scope: Scope): Binding {
    var own, inner := Redeclared(decls), Declared(decls, scope);
    if active.None? || active.value.uri == "" then Binding(own, None, inner)
    else
      var ns := active.value;
      if ns.prefix in inner && inner[ns.prefix] == ns.uri then Binding(own, active, inner)
      else Binding(WithDecl(own, ns), active, inner[ns.prefix := ns.uri])
  }

  /** `bindNamespacesOverDeclare` */
  function BindOver(decls: seq<Ns>, active: Option<Ns>, scope: Scope): Binding {
    var own := Redeclared(decls);
    var all := if active.Some? && active.value.uri != "" && !Declares(decls, active.value.prefix)
      then WithDecl(own, active.value) else own;
    Binding(all, active, Declared(all, scope))
  }

  lemma {:induction false} DeclaredSome(decls: seq<Ns>, scope: Scope, prefix: string)
    ensures (exists i :: 0 <= i < |decls| && decls[i].prefix == prefix) ==> prefix in Declared(decls, scope)
    ensures prefix in Declared(decls, scope) ==>
      prefix in scope || exists i :: 0 <= i < |decls| && decls[i].prefix == prefix
  {
    if decls != [] {
      var init := decls[..|decls| - 1];
      DeclaredSome(init, scope, prefix);
      assert decls == init + [decls[|decls| - 1]];
    }
  }

  /** Over-declaring, an element in a namespace declares that prefix itself, and otherwise just what it declared. */
  lemma OverDeclares(decls: seq<Ns>, active: Option<Ns>, scope: Scope, prefix: string)
    ensures var b := BindOver(decls, active, scope);
      && b.active == active
      && ((exists i :: 0 <= i < |b.decls| && b.decls[i].prefix == prefix) <==>
          (exists i :: 0 <= i < |decls| && decls[i].prefix == prefix)
          || (active.Some? && active.value.uri != "" && active.value.prefix == prefix))
  {
    var own, b := Redeclared(decls), BindOver(decls, active, scope);
    RedeclaredScope(decls, map[]);
    DeclaredSome(decls, map[], prefix);
    DeclaredSome(own, map[], prefix);
    DeclaredSome(b.decls, map[], prefix);
    if active.Some? && active.value.uri != "" && !Declares(decls, active.value.prefix) {
      WithDeclExactly(own, active.value);
      DeclaredSome(own, map[], active.value.prefix);
      DeclaredSome(decls, map[], active.value.prefix);
      assert b.decls[|own|] == active.value;
      assert forall i :: 0 <= i < |own| ==> b.decls[i] == own[i];
    }
  }

  /** In the exact mode a namespace that is in scope is not declared again, and another one is; a name without URI is in none. */
  lemma ExactDeclares(decls: seq<Ns>, active: Option<Ns>, scope: Scope)
    ensures var b, inner := BindExact(decls, active, scope), Declared(decls, scope);
      && b.active == (if active.Some? && active.value.uri != "" then active else None)
      && (active.Some? && active.value.uri != "" ==>
          var p := active.value.prefix;
          && p in b.scope && b.scope[p] == active.value.uri
          && (p in inner && inner[p] == active.value.uri ==> b.decls == Redeclared(decls) && b.scope == inner)
          && (p !in inner ==> b.decls == Redeclared(decls) + [active.value]))
  {
    if active.Some? && active.value.uri != "" && active.value.prefix !in Declared(decls, scope) {
      var p, own := active.value.prefix, Redeclared(decls);
      RedeclaredScope(decls, scope);
      DeclaredSome(own, scope, p);
      WithDeclExactly(own, active.value);
    }
  }

  function Bind(mode: Mode, decls: seq<Ns>, active: Option<Ns>, scope: Scope): Binding {
    if mode.overDeclare then BindOver(decls, active, scope) else BindExact(decls, active, scope)
  }

  /** `AddChild` merges a text node into a text node before it, the unchecked append does not. */
  function Linked(mode: Mode, done: seq<Node>, child: Node): (r: seq<Node>)
    ensures |r| <= |done| + 1
  {
    if !mode.fastLink && child.Text? && done != [] && done[|done| - 1].Text? then
      done[..|done| - 1] + [Text(done[|done| - 1].content + child.content)]
    else done + [child]
  }

  function Copied(mode: Mode, src: Node, scope: Scope): (r: Node)
    ensures r.Elem? <==> src.Elem?
    ensures r.Text? <==> src.Text?
    decreases src, 0
  {
    match src
    case EntityRef(name) => EntityRef(DecodedName(name))
    case Elem(name, decls, active, attrs, children) =>
      var b := Bind(mode, decls, active, scope);
      Elem(name, b.decls, b.active, CopiedAttrs(attrs), CopiedChildren(mode, children, b.scope))
    case _ => src
  }

  function CopiedChildren(mode: Mode, children: seq<Node>, scope: Scope): (r: seq<Node>)
    ensures |r| <= |children|
    decreases children, |children|
  {
    if children == [] then []
    else
      var n := |children| - 1;
      Linked(mode, CopiedChildren(mode, children[..n], scope), Copied(mode, children[n], scope))
  }

  // ----- the shape is kept -----

  /** Equal but for the declarations; a namespace with an empty URI counts as none. */
  ghost predicate Isomorphic(a: Node, b: Node)
    decreases a
  {
    if a.Elem? && b.Elem? then
      && a.name == b.name && InNamespace(a.active) == InNamespace(b.active) && a.attrs == b.attrs
      && |a.children| == |b.children|
      && forall i :: 0 <= i < |a.children| ==> Isomorphic(a.children[i], b.children[i])
    else a == b
  }

  function InNamespace(active: Option<Ns>): Option<Ns> {
    if active.Some? && active.value.uri != "" then active else None
  }

  predicate AdjacentTexts(children: seq<Node>, i: nat)
    requires i + 1 < |children|
  {
    children[i].Text? && children[i + 1].Text?
  }

  ghost predicate NoAdjacentTexts(children: seq<Node>) {
    forall i {:trigger AdjacentTexts(children, i)} :: 0 <= i < |children| - 1 ==> !AdjacentTexts(children, i)
  }

  /** No two text nodes stand side by side anywhere. */
  ghost predicate TextsApart(src: Node)
    decreases src
  {
    src.Elem? ==>
      NoAdjacentTexts(src.children) && forall i :: 0 <= i < |src.children| ==> TextsApart(src.children[i])
  }

  /** Attributes and reference names are as the parser and the constructors leave them. */
  ghost predicate PlainTree(src: Node)
    decreases src
  {
    match src
    case EntityRef(name) => name == "" || name[0] != '&'
    case Elem(_, _, _, attrs, children) =>
      PlainAttrs(attrs) && forall i :: 0 <= i < |children| ==> PlainTree(children[i])
    case _ => true
  }

  /** At no element two attributes are taken for the same one. */
  ghost predicate AttrsApart(src: Node)
    decreases src
  {
    src.Elem? ==>
      DistinctAttrs(src.attrs) && forall i :: 0 <= i < |src.children| ==> AttrsApart(src.children[i])
  }

  /** Children are copied one for one unless two texts are merged. */
  lemma {:induction false} ChildrenExact(mode: Mode, children: seq<Node>, scope: Scope)
    ensures var r := CopiedChildren(mode, children, scope);
      if mode.fastLink || NoAdjacentTexts(children) then
        |r| == |children| && forall i :: 0 <= i < |r| ==> r[i] == Copied(mode, children[i], scope)
      else |r| < |children|
    ensures var r := CopiedChildren(mode, children, scope);
      children != [] ==> r != [] && (children[|children| - 1].Text? <==> r[|r| - 1].Text?)
  {
    hide Copied, NoAdjacentTexts, Linked;
    if children == [] {
      NoNeighbours();
    } else {
      var n := |children| - 1;
      var done, cp := CopiedChildren(mode, children[..n], scope), Copied(mode, children[n], scope);
      ChildrenExact(mode, children[..n], scope);
      LastChild(children);
      CopiedKind(mode, children[n], scope);
      LinkedExact(mode, done, cp);
    }
  }

  lemma NoNeighbours()
    ensures NoAdjacentTexts([])
  {
  }

  lemma LinkedExact(mode: Mode, done: seq<Node>, child: Node)
    ensures var r, merges := Linked(mode, done, child), !mode.fastLink && child.Text? && done != [] && done[|done| - 1].Text?;
      && r != [] && (r[|r| - 1].Text? <==> child.Text?)
      && (if merges then |r| == |done| else r == done + [child])
  {
  }

  lemma CopiedKind(mode: Mode, src: Node, scope: Scope)
    ensures Copied(mode, src, scope).Text? <==> src.Text?
  {
  }

  lemma LastChild(children: seq<Node>)
    requires children != []
    ensures var n := |children| - 1;
      NoAdjacentTexts(children) <==>
        NoAdjacentTexts(children[..n]) && (n > 0 ==> !(children[n - 1].Text? && children[n].Text?))
  {
    var n := |children| - 1;
    if NoAdjacentTexts(children) {
      forall i | 0 <= i < n - 1 ensures !AdjacentTexts(children[..n], i) {
        assert !AdjacentTexts(children, i);
      }
      assert n > 0 ==> !AdjacentTexts(children, n - 1);
    }
    if NoAdjacentTexts(children[..n]) && (n > 0 ==> !(children[n - 1].Text? && children[n].Text?)) {
      forall i | 0 <= i < n ensures !AdjacentTexts(children, i) {
        if i < n - 1 {
          assert !AdjacentTexts(children[..n], i);
        }
      }
    }
  }

  lemma BoundNamespace(mode: Mode, decls: seq<Ns>, active: Option<Ns>, scope: Scope)
    ensures InNamespace(Bind(mode, decls, active, scope).active) == InNamespace(active)
  {
  }

  /**
   * The copy has the shape, names, attributes and text of the source exactly when no two attributes of an element are
   * taken for the same one, and it is linked without merging or no two texts stand side by side.
   */
  lemma {:induction false} CopyIsomorphic(mode: Mode, src: Node, scope: Scope)
    requires PlainTree(src)
    ensures Isomorphic(src, Copied(mode, src, scope)) <==> (mode.fastLink || TextsApart(src)) && AttrsApart(src)
    decreases src
  {
    if src.Elem? {
      hide Bind, CopiedAttrs;
      var inner := Bind(mode, src.decls, src.active, scope).scope;
      CopiedAttrsExact(src.attrs);
      BoundNamespace(mode, src.decls, src.active, scope);
      ChildrenExact(mode, src.children, inner);
      forall i | 0 <= i < |src.children|
        ensures Isomorphic(src.children[i], Copied(mode, src.children[i], inner)) <==>
          (mode.fastLink || TextsApart(src.children[i])) && AttrsApart(src.children[i])
      {
        CopyIsomorphic(mode, src.children[i], inner);
      }
    }
  }

  /** Two texts side by side come out as one under the linking that merges. */
  lemma AdjacentTextsMerge(name: string, a: string, b: string, overDeclare: bool, scope: Scope)
    ensures var src := Elem(name, [], None, [], [Text(a), Text(b)]);
      && PlainTree(src) && !TextsApart(src)
      && Copied(Mode(overDeclare, false), src, scope).children == [Text(a + b)]
      && Copied(Mode(overDeclare, true), src, scope).children == src.children
  {
    var src := Elem(name, [], None, [], [Text(a), Text(b)]);
    assert AdjacentTexts(src.children, 0);
    TwoTextsCopied(Mode(overDeclare, false), a, b, Bind(Mode(overDeclare, false), [], None, scope).scope);
    TwoTextsCopied(Mode(overDeclare, true), a, b, Bind(Mode(overDeclare, true), [], None, scope).scope);
  }

  lemma TwoTextsCopied(mode: Mode, a: string, b: string, scope: Scope)
    ensures CopiedChildren(mode, [Text(a), Text(b)], scope) == if mode.fastLink then [Text(a), Text(b)] else [Text(a + b)]
  {
    var one, two := [Text(a)], [Text(a), Text(b)];
    assert one[..0] == [] && two[..1] == one;
    assert CopiedChildren(mode, [], scope) == [];
    assert CopiedChildren(mode, one, scope) == one;
  }

  // ----- prefixes keep their meaning -----

  /** The element children. */
  function Elements(children: seq<Node>): (r: seq<Node>)
    ensures |r| <= |children| && forall i :: 0 <= i < |r| ==> r[i].Elem? && r[i] in children
  {
    if children == [] then []
    else
      var n := |children| - 1;
      Elements(children[..n]) + if children[n].Elem? then [children[n]] else []
  }

  lemma {:induction false} ElementsCopied(mode: Mode, children: seq<Node>, scope: Scope)
    ensures var r := Elements(CopiedChildren(mode, children, scope));
      |r| == |Elements(children)| && forall i :: 0 <= i < |r| ==> r[i] == Copied(mode, Elements(children)[i], scope)
  {
    hide Copied;
    if children != [] {
      var n := |children| - 1;
      ElementsCopied(mode, children[..n], scope);
      var done, cp := CopiedChildren(mode, children[..n], scope), Copied(mode, children[n], scope);
      ElementsLinked(mode, done, cp);
    }
  }

  lemma ElementsLinked(mode: Mode, done: seq<Node>, child: Node)
    ensures Elements(Linked(mode, done, child)) == Elements(done) + if child.Elem? then [child] else []
  {
    var r := Linked(mode, done, child);
    var n := |r| - 1;
    if r == done + [child] {
      assert r[..n] == done;
    } else {
      assert r[..n] == done[..n];
    }
  }

  /** At every element every prefix resolves alike in the source and in the copy. */
  ghost predicate Agrees(src: Node, scope: Scope, cp: Node, cpScope: Scope)
    requires src.Elem? && cp.Elem?
    decreases src
  {
    var inner, cpInner := Declared(src.decls, scope), Declared(cp.decls, cpScope);
    var a, b := Elements(src.children), Elements(cp.children);
    && SameScope(inner, cpInner) && |a| == |b|
    && forall i :: 0 <= i < |a| ==> Agrees(a[i], inner, b[i], cpInner)
  }

  /** The active namespace is what its prefix means there; when over-declaring, an own declaration of the prefix is enough. */
  predicate ActiveOk(mode: Mode, decls: seq<Ns>, active: Option<Ns>, scope: Scope) {
    active.None? || active.value.uri == ""
    || (mode.overDeclare && Declares(decls, active.value.prefix))
    || Resolve(Declared(decls, scope), active.value.prefix) == Some(active.value.uri)
  }

  ghost predicate Consistent(mode: Mode, src: Node, scope: Scope)
    requires src.Elem?
    decreases src
  {
    && ActiveOk(mode, src.decls, src.active, scope)
    && forall i :: 0 <= i < |Elements(src.children)| ==>
         Consistent(mode, Elements(src.children)[i], Declared(src.decls, scope))
  }

  /** The scope handed down while copying is the one the declarations of the copy make. */
  lemma BoundScope(mode: Mode, decls: seq<Ns>, active: Option<Ns>, scope: Scope)
    ensures var b := Bind(mode, decls, active, scope);
      OnePerPrefix(b.decls) && b.scope == Declared(b.decls, scope)
  {
    hide Declares;
    RedeclaredScope(decls, scope);
    if active.Some? {
      WithDeclBinds(Redeclared(decls), active.value, scope);
    }
  }

  /** Binding keeps the meaning of every prefix exactly when the active namespace is in order. */
  lemma BoundLike(mode: Mode, decls: seq<Ns>, active: Option<Ns>, scope: Scope, cpScope: Scope)
    requires SameScope(scope, cpScope)
    ensures SameScope(Declared(decls, scope), Bind(mode, decls, active, cpScope).scope) <==> ActiveOk(mode, decls, active, scope)
  {
    var inner, cpInner := Declared(decls, scope), Declared(decls, cpScope);
    DeclaredLike(decls, scope, cpScope);
    RedeclaredScope(decls, cpScope);
    if active.Some? && active.value.uri != "" {
      var ns := active.value;
      WithDeclBinds(Redeclared(decls), ns, cpScope);
      assert Resolve(inner, ns.prefix) == Resolve(cpInner, ns.prefix);
      Rebound(inner, cpInner, ns);
    }
  }

  lemma Rebound(inner: Scope, cpInner: Scope, ns: Ns)
    requires SameScope(inner, cpInner)
    ensures SameScope(inner, cpInner[ns.prefix := ns.uri]) <==> Resolve(inner, ns.prefix) == Some(ns.uri)
  {
    var rebound := cpInner[ns.prefix := ns.uri];
    if Resolve(inner, ns.prefix) == Some(ns.uri) {
      forall p ensures Resolve(inner, p) == Resolve(rebound, p) {
        assert Resolve(inner, p) == Resolve(cpInner, p);
      }
    } else {
      assert Resolve(rebound, ns.prefix) == Some(ns.uri);
    }
  }

  /**
   * In both modes every prefix resolves at every copied element as at the element it was copied from, exactly when
   * the source uses its prefixes consistently.
   */
  lemma {:induction false} NamespacesKept(mode: Mode, src: Node, scope: Scope, cpScope: Scope)
    requires src.Elem? && SameScope(scope, cpScope)
    ensures Agrees(src, scope, Copied(mode, src, cpScope), cpScope) <==> Consistent(mode, src, scope)
    decreases src
  {
    var b := Bind(mode, src.decls, src.active, cpScope);
    BoundScope(mode, src.decls, src.active, cpScope);
    BoundLike(mode, src.decls, src.active, scope, cpScope);
    ElementsCopied(mode, src.children, b.scope);
    if ActiveOk(mode, src.decls, src.active, scope) {
      hide Bind;
      var inner, a := Declared(src.decls, scope), Elements(src.children);
      forall i | 0 <= i < |a|
        ensures Agrees(a[i], inner, Copied(mode, a[i], b.scope), b.scope) <==> Consistent(mode, a[i], inner)
      {
        NamespacesKept(mode, a[i], inner, b.scope);
      }
    }
  }

  /** Every element's namespace is what its prefix means there. */
  ghost predicate WellBound(src: Node, scope: Scope)
    requires src.Elem?
    decreases src
  {
    var inner := Declared(src.decls, scope);
    && (InNamespace(src.active).Some? ==> Resolve(inner, src.active.value.prefix) == Some(src.active.value.uri))
    && forall i :: 0 <= i < |Elements(src.children)| ==> WellBound(Elements(src.children)[i], inner)
  }

  /** In the exact mode the copy is consistent even where the source is not. */
  lemma {:induction false} ExactIsWellBound(src: Node, fastLink: bool, scope: Scope)
    requires src.Elem?
    ensures WellBound(Copied(Mode(false, fastLink), src, scope), scope)
    decreases src
  {
    var mode := Mode(false, fastLink);
    var b := Bind(mode, src.decls, src.active, scope);
    BoundScope(mode, src.decls, src.active, scope);
    ElementsCopied(mode, src.children, b.scope);
    var a := Elements(src.children);
    forall i | 0 <= i < |a| ensures WellBound(Copied(mode, a[i], b.scope), b.scope) {
      ExactIsWellBound(a[i], fastLink, b.scope);
    }
  }

  // ----- along a path -----

  /** `path` leads from `src` down through element children. */
  predicate OnPath(src: Node, path: seq<nat>)
    decreases |path|
  {
    src.Elem? &&
    (path == [] || (path[0] < |Elements(src.children)| && OnPath(Elements(src.children)[path[0]], path[1..])))
  }

  /** The declarations of the elements on the path, outermost first. */
  function ChainTo(src: Node, path: seq<nat>): seq<seq<Ns>>
    requires OnPath(src, path)
    decreases |path|
  {
    [src.decls] + if path == [] then [] else ChainTo(Elements(src.children)[path[0]], path[1..])
  }

  function ScopeAt(src: Node, path: seq<nat>, scope: Scope): Scope
    requires OnPath(src, path)
    decreases |path|
  {
    var inner := Declared(src.decls, scope);
    if path == [] then inner else ScopeAt(Elements(src.children)[path[0]], path[1..], inner)
  }

  /** The scope map the copier hands down to the element at the end of the path. */
  function HandedDown(mode: Mode, src: Node, path: seq<nat>, scope: Scope): Scope
    requires OnPath(src, path)
    decreases |path|
  {
    var inner := Bind(mode, src.decls, src.active, scope).scope;
    if path == [] then inner else HandedDown(mode, Elements(src.children)[path[0]], path[1..], inner)
  }

  ghost predicate TreeOnePerPrefix(src: Node)
    requires src.Elem?
    decreases src
  {
    OnePerPrefix(src.decls) && forall i :: 0 <= i < |Elements(src.children)| ==> TreeOnePerPrefix(Elements(src.children)[i])
  }

  lemma JoinChains(a: seq<seq<Ns>>, b: seq<seq<Ns>>, c: seq<seq<Ns>>)
    ensures a + (b + c) == a + b + c
  {
  }

  lemma {:induction false} ScopeAtIsAlong(src: Node, path: seq<nat>, outer: seq<seq<Ns>>)
    requires OnPath(src, path)
    ensures ScopeAt(src, path, ScopeAlong(outer)) == ScopeAlong(outer + ChainTo(src, path))
    decreases |path|
  {
    var grown := outer + [src.decls];
    assert grown[..|outer|] == outer;
    if path == [] {
      assert outer + ChainTo(src, path) == grown;
    } else {
      var child := Elements(src.children)[path[0]];
      ScopeAtIsAlong(child, path[1..], grown);
      JoinChains(outer, [src.decls], ChainTo(child, path[1..]));
    }
  }

  lemma {:induction false} ChainOnePerPrefix(src: Node, path: seq<nat>)
    requires OnPath(src, path) && TreeOnePerPrefix(src)
    ensures forall k :: 0 <= k < |ChainTo(src, path)| ==> OnePerPrefix(ChainTo(src, path)[k])
    decreases |path|
  {
    if path != [] {
      ChainOnePerPrefix(Elements(src.children)[path[0]], path[1..]);
    }
  }

  /** The walk up from the end of a path. */
  lemma WalkAt(src: Node, path: seq<nat>, prefix: string)
    requires OnPath(src, path) && TreeOnePerPrefix(src)
    ensures Lookup(ChainTo(src, path), prefix) == Resolve(ScopeAt(src, path, map[]), prefix)
  {
    ChainOnePerPrefix(src, path);
    LookupIsScope(ChainTo(src, path), prefix);
    ScopeAtIsAlong(src, path, []);
    assert [] + ChainTo(src, path) == ChainTo(src, path);
  }

  lemma {:induction false} CopyOnePerPrefix(mode: Mode, src: Node, scope: Scope)
    requires src.Elem?
    ensures TreeOnePerPrefix(Copied(mode, src, scope))
    decreases src
  {
    hide Bind;
    var b := Bind(mode, src.decls, src.active, scope);
    BoundScope(mode, src.decls, src.active, scope);
    ElementsCopied(mode, src.children, b.scope);
    var a := Elements(src.children);
    forall i | 0 <= i < |a| ensures TreeOnePerPrefix(Copied(mode, a[i], b.scope)) {
      CopyOnePerPrefix(mode, a[i], b.scope);
    }
  }

  lemma {:induction false} PathCopied(mode: Mode, src: Node, path: seq<nat>, scope: Scope)
    requires OnPath(src, path)
    ensures OnPath(Copied(mode, src, scope), path)
    ensures ScopeAt(Copied(mode, src, scope), path, scope) == HandedDown(mode, src, path, scope)
    decreases |path|
  {
    hide Bind;
    var b := Bind(mode, src.decls, src.active, scope);
    BoundScope(mode, src.decls, src.active, scope);
    ElementsCopied(mode, src.children, b.scope);
    if path != [] {
      PathCopied(mode, Elements(src.children)[path[0]], path[1..], b.scope);
    }
  }

  /**
   * The scope map handed down while copying agrees, at every element, with the walk up the ancestors on the
   * finished copy; nothing is asked of the source.
   */
  lemma ScopeMapIsWalk(mode: Mode, src: Node, path: seq<nat>, prefix: string)
    requires OnPath(src, path)
    ensures var cp := Copied(mode, src, map[]);
      OnPath(cp, path) && Resolve(HandedDown(mode, src, path, map[]), prefix) == Lookup(ChainTo(cp, path), prefix)
  {
    PathCopied(mode, src, path, map[]);
    CopyOnePerPrefix(mode, src, map[]);
    WalkAt(Copied(mode, src, map[]), path, prefix);
  }

  lemma {:induction false} AgreesAt(src: Node, scope: Scope, cp: Node, cpScope: Scope, path: seq<nat>)
    requires OnPath(src, path) && cp.Elem? && Agrees(src, scope, cp, cpScope)
    ensures OnPath(cp, path) && SameScope(ScopeAt(src, path, scope), ScopeAt(cp, path, cpScope))
    decreases |path|
  {
    if path != [] {
      var i := path[0];
      AgreesAt(Elements(src.children)[i], Declared(src.decls, scope), Elements(cp.children)[i],
        Declared(cp.decls, cpScope), path[1..]);
    }
  }

  /** In a consistent document every lookup at a copied element finds what it finds at the element it was copied from. */
  lemma LookupsKept(mode: Mode, src: Node, path: seq<nat>, prefix: string)
    requires OnPath(src, path) && TreeOnePerPrefix(src) && Consistent(mode, src, map[])
    ensures var cp := Copied(mode, src, map[]);
      OnPath(cp, path) && Lookup(ChainTo(cp, path), prefix) == Lookup(ChainTo(src, path), prefix)
  {
    var cp := Copied(mode, src, map[]);
    NamespacesKept(mode, src, map[], map[]);
    AgreesAt(src, map[], cp, map[], path);
    CopyOnePerPrefix(mode, src, map[]);
    WalkAt(src, path, prefix);
    WalkAt(cp, path, prefix);
  }
}
