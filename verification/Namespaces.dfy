/** Namespace declarations, the scope they make, and the walk up the ancestors that looks a prefix up. */
module Namespaces {
  import opened Wrappers

  datatype Ns = Ns(prefix: string, uri: string)

  /** The URI each prefix is bound to. */
  type Scope = map<string, string>

  const XML_URI := "http://www.w3.org/XML/1998/namespace"

  /** The scope inside an element with the declarations `decls`; a later one overrides an earlier one. */
  function Declared(decls: seq<Ns>, scope: Scope): Scope {
    if decls == [] then scope
    else
      var last := decls[|decls| - 1];
      Declared(decls[..|decls| - 1], scope)[last.prefix := last.uri]
  }

  function Resolve(scope: Scope, prefix: string): Option<string> {
    if prefix in scope then Some(scope[prefix]) else if prefix == "xml" then Some(XML_URI) else None
  }

  /** The two scopes resolve every prefix alike. */
  ghost predicate SameScope(a: Scope, b: Scope) {
    forall p :: Resolve(a, p) == Resolve(b, p)
  }

  predicate OnePerPrefix(decls: seq<Ns>) {
    forall i, j :: 0 <= i < j < |decls| ==> decls[i].prefix != decls[j].prefix
  }

  predicate Declares(decls: seq<Ns>, prefix: string) {
    exists i :: 0 <= i < |decls| && decls[i].prefix == prefix
  }

  lemma {:induction false} DeclaredLike(decls: seq<Ns>, a: Scope, b: Scope)
    requires SameScope(a, b)
    ensures SameScope(Declared(decls, a), Declared(decls, b))
  {
    if decls != [] {
      DeclaredLike(decls[..|decls| - 1], a, b);
      var last := decls[|decls| - 1];
      var a', b' := Declared(decls, a), Declared(decls, b);
      forall p ensures Resolve(a', p) == Resolve(b', p) {
        assert Resolve(Declared(decls[..|decls| - 1], a), p) == Resolve(Declared(decls[..|decls| - 1], b), p);
      }
    }
  }

  lemma {:induction false} DeclaredAt(decls: seq<Ns>, scope: Scope, prefix: string)
    requires !Declares(decls, prefix)
    ensures prefix in Declared(decls, scope) <==> prefix in scope
    ensures prefix in scope ==> Declared(decls, scope)[prefix] == scope[prefix]
  {
    if decls != [] {
      var init := decls[..|decls| - 1];
      forall i | 0 <= i < |init| ensures init[i].prefix != prefix {
        assert decls[i].prefix != prefix;
      }
      DeclaredAt(init, scope, prefix);
    }
  }

  lemma {:induction false} DeclaredOwn(decls: seq<Ns>, scope: Scope, i: nat)
    requires OnePerPrefix(decls) && i < |decls|
    ensures decls[i].prefix in Declared(decls, scope) && Declared(decls, scope)[decls[i].prefix] == decls[i].uri
  {
    if i < |decls| - 1 {
      DeclaredOwn(decls[..|decls| - 1], scope, i);
    }
  }

  // ----- adding a declaration -----

  /** Where `prefix` is declared, or the number of declarations. */
  function DeclAt(decls: seq<Ns>, prefix: string, from: nat): (i: nat)
    requires from <= |decls|
    ensures from <= i <= |decls| && (i < |decls| ==> decls[i].prefix == prefix)
    ensures forall j :: from <= j < i ==> decls[j].prefix != prefix
    decreases |decls| - from
  {
    if from == |decls| || decls[from].prefix == prefix then from else DeclAt(decls, prefix, from + 1)
  }

  /** `AddNamespaceDecl`: a prefix keeps its one slot. */
  function WithDecl(decls: seq<Ns>, ns: Ns): (r: seq<Ns>)
    ensures OnePerPrefix(decls) ==> OnePerPrefix(r)
  {
    var i := DeclAt(decls, ns.prefix, 0);
    if i < |decls| then decls[i := ns] else decls + [ns]
  }

  lemma {:induction false} Overridden(decls: seq<Ns>, i: nat, ns: Ns, scope: Scope)
    requires OnePerPrefix(decls) && i < |decls| && decls[i].prefix == ns.prefix
    ensures Declared(decls[i := ns], scope) == Declared(decls, scope)[ns.prefix := ns.uri]
  {
    var n := |decls| - 1;
    var init := decls[..n];
    if i == n {
      assert decls[i := ns][..n] == init;
    } else {
      Overridden(init, i, ns, scope);
      assert decls[i := ns][..n] == init[i := ns];
      assert decls[n].prefix != ns.prefix;
    }
  }

  /** Adding a declaration binds its prefix and changes nothing else. */
  lemma WithDeclBinds(decls: seq<Ns>, ns: Ns, scope: Scope)
    requires OnePerPrefix(decls)
    ensures Declared(WithDecl(decls, ns), scope) == Declared(decls, scope)[ns.prefix := ns.uri]
  {
    var i := DeclAt(decls, ns.prefix, 0);
    if i < |decls| {
      Overridden(decls, i, ns, scope);
    } else {
      assert (decls + [ns])[..|decls|] == decls;
    }
  }

  /** A prefix that is declared keeps its place, another one is declared behind the others. */
  lemma WithDeclExactly(decls: seq<Ns>, ns: Ns)
    ensures (forall i :: 0 <= i < |decls| ==> decls[i].prefix != ns.prefix) ==> WithDecl(decls, ns) == decls + [ns]
    ensures forall i :: FirstOf(decls, i, ns.prefix) ==> WithDecl(decls, ns) == decls[i := ns]
  {
  }

  predicate FirstOf(decls: seq<Ns>, i: int, prefix: string) {
    0 <= i < |decls| && decls[i].prefix == prefix && forall j :: 0 <= j < i ==> decls[j].prefix != prefix
  }

  /** Declarations added one after the other to none. */
  function Redeclared(decls: seq<Ns>): (r: seq<Ns>)
    ensures OnePerPrefix(r)
  {
    if decls == [] then [] else WithDecl(Redeclared(decls[..|decls| - 1]), decls[|decls| - 1])
  }

  lemma {:induction false} RedeclaredScope(decls: seq<Ns>, scope: Scope)
    ensures Declared(Redeclared(decls), scope) == Declared(decls, scope)
  {
    if decls != [] {
      var init := decls[..|decls| - 1];
      RedeclaredScope(init, scope);
      WithDeclBinds(Redeclared(init), decls[|decls| - 1], scope);
    }
  }

  lemma {:induction false} RedeclaredSame(decls: seq<Ns>)
    requires OnePerPrefix(decls)
    ensures Redeclared(decls) == decls
  {
    if decls != [] {
      var init := decls[..|decls| - 1];
      RedeclaredSame(init);
      assert decls == init + [decls[|decls| - 1]];
    }
  }

  // ----- looking up -----

  /** The first declaration of `prefix` from the innermost element of `chain` outwards: `LookupNSByPrefix`. */
  function Lookup(chain: seq<seq<Ns>>, prefix: string): Option<string> {
    if chain == [] then (if prefix == "xml" then Some(XML_URI) else None)
    else
      var decls := chain[|chain| - 1];
      var i := DeclAt(decls, prefix, 0);
      if i < |decls| then Some(decls[i].uri) else Lookup(chain[..|chain| - 1], prefix)
  }

  function ScopeAlong(chain: seq<seq<Ns>>): Scope {
    if chain == [] then map[] else Declared(chain[|chain| - 1], ScopeAlong(chain[..|chain| - 1]))
  }

  /** The walk finds what the scope built from the outermost element inwards holds. */
  lemma {:induction false} LookupIsScope(chain: seq<seq<Ns>>, prefix: string)
    requires forall k :: 0 <= k < |chain| ==> OnePerPrefix(chain[k])
    ensures Lookup(chain, prefix) == Resolve(ScopeAlong(chain), prefix)
  {
    if chain != [] {
      var outer, decls := chain[..|chain| - 1], chain[|chain| - 1];
      LookupIsScope(outer, prefix);
      var i := DeclAt(decls, prefix, 0);
      if i < |decls| {
        DeclaredOwn(decls, ScopeAlong(outer), i);
      } else {
        DeclaredAt(decls, ScopeAlong(outer), prefix);
      }
    }
  }

  /** The reserved prefix is bound without a declaration. */
  lemma XmlBound(scope: Scope, chain: seq<seq<Ns>>)
    ensures "xml" !in scope ==> Resolve(scope, "xml") == Some("http://www.w3.org/XML/1998/namespace")
    ensures chain == [] ==> Lookup(chain, "xml") == Some("http://www.w3.org/XML/1998/namespace")
  {
  }
}
