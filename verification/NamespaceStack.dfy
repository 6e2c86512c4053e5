/** The parser's stack of namespace bindings, with and without the redundant ones. */
module NamespaceStack {
  /** `defaulted` tells a declaration supplied by the DTD; those are never left out. */
  datatype Binding = Binding(prefix: string, uri: string, defaulted: bool)

  /** The innermost binding of the prefix; the empty string if there is none. */
  function LookupIn(tab: seq<Binding>, prefix: string): string {
    if tab == [] then ""
    else
      var n := |tab| - 1;
      if tab[n].prefix == prefix then tab[n].uri else LookupIn(tab[..n], prefix)
  }

  predicate InnermostAt(tab: seq<Binding>, prefix: string, k: int) {
    0 <= k < |tab| && tab[k].prefix == prefix && forall j :: k < j < |tab| ==> tab[j].prefix != prefix
  }

  ghost predicate SameBindings(a: seq<Binding>, b: seq<Binding>) {
    forall p :: LookupIn(a, p) == LookupIn(b, p)
  }

  lemma LookupPushed(tab: seq<Binding>, b: Binding)
    ensures forall p :: LookupIn(tab + [b], p) == if p == b.prefix then b.uri else LookupIn(tab, p)
  {
    assert (tab + [b])[..|tab|] == tab;
  }

  /** No binding but one supplied by the DTD repeats the binding in force where it stands. */
  ghost predicate Lean(tab: seq<Binding>) {
    forall k :: 0 <= k < |tab| ==> tab[k].defaulted || LookupIn(tab[..k], tab[k].prefix) != tab[k].uri
  }

  lemma LeanPushed(tab: seq<Binding>, b: Binding)
    requires Lean(tab) && (b.defaulted || LookupIn(tab, b.prefix) != b.uri)
    ensures Lean(tab + [b])
  {
    var t := tab + [b];
    forall k | 0 <= k < |t| ensures t[k].defaulted || LookupIn(t[..k], t[k].prefix) != t[k].uri {
      assert t[..k] == tab[..k];
      assert tab[..|tab|] == tab;
    }
  }

  lemma LeanCut(tab: seq<Binding>, n: nat)
    requires Lean(tab) && n <= |tab|
    ensures Lean(tab[..n])
  {
    forall k | 0 <= k < n ensures tab[k].defaulted || LookupIn(tab[..n][..k], tab[k].prefix) != tab[k].uri {
      assert tab[..n][..k] == tab[..k];
    }
  }

  /** The binding of `d` is in force once the first `m` of the bindings picked are pushed, and those are the ones before `i`. */
  ghost predicate Repeats(tab: seq<Binding>, base: nat, picks: seq<nat>, i: nat, d: Binding, m: nat)
    requires |tab| == base + |picks|
  {
    && m <= |picks| && LookupIn(tab[..base + m], d.prefix) == d.uri
    && (forall k :: 0 <= k < m ==> picks[k] < i) && (forall k :: m <= k < |picks| ==> i < picks[k])
  }

  /**
   * Behind its first `base` bindings `tab` holds the declarations at `picks`, in their order, and every one that is left
   * out is not supplied by the DTD and repeats the binding in force where it stands.
   */
  ghost predicate Picked(tab: seq<Binding>, base: nat, decls: seq<Binding>, picks: seq<nat>) {
    && |tab| == base + |picks|
    && (forall k :: 0 <= k < |picks| ==> picks[k] < |decls| && tab[base + k] == decls[picks[k]])
    && (forall j, k :: 0 <= j < k < |picks| ==> picks[j] < picks[k])
    && (forall i :: 0 <= i < |decls| && i !in picks ==>
        !decls[i].defaulted && exists m: nat :: Repeats(tab, base, picks, i, decls[i], m))
  }

  lemma NothingPicked(tab: seq<Binding>)
    ensures Picked(tab, |tab|, [], [])
  {
  }

  lemma PickedMore(tab: seq<Binding>, base: nat, decls: seq<Binding>, picks: seq<nat>, d: Binding)
    requires Picked(tab, base, decls, picks)
    ensures Picked(tab + [d], base, decls + [d], picks + [|decls|])
  {
    var t, ds, ps := tab + [d], decls + [d], picks + [|decls|];
    forall i | 0 <= i < |ds| && i !in ps ensures !ds[i].defaulted && exists m: nat :: Repeats(t, base, ps, i, ds[i], m) {
      assert ps[|picks|] == |decls|;
      assert forall k :: 0 <= k < |picks| ==> picks[k] == ps[k] && ps[k] in ps;
      var m: nat :| Repeats(tab, base, picks, i, decls[i], m);
      assert t[..base + m] == tab[..base + m];
      assert Repeats(t, base, ps, i, ds[i], m);
    }
  }

  lemma PickedLess(tab: seq<Binding>, base: nat, decls: seq<Binding>, picks: seq<nat>, d: Binding)
    requires Picked(tab, base, decls, picks) && !d.defaulted && LookupIn(tab, d.prefix) == d.uri
    ensures Picked(tab, base, decls + [d], picks)
  {
    var ds := decls + [d];
    forall i | 0 <= i < |ds| && i !in picks ensures !ds[i].defaulted && exists m: nat :: Repeats(tab, base, picks, i, ds[i], m) {
      if i < |decls| {
        var m: nat :| Repeats(tab, base, picks, i, decls[i], m);
        assert Repeats(tab, base, picks, i, ds[i], m);
      } else {
        assert tab[..base + |picks|] == tab;
        assert Repeats(tab, base, picks, i, d, |picks|);
      }
    }
  }

  /** All declarations of the open elements, outermost first. */
  function AllOf(open: seq<seq<Binding>>): seq<Binding> {
    if open == [] then [] else AllOf(open[..|open| - 1]) + open[|open| - 1]
  }

  /** At every depth the bindings kept resolve every prefix as all declarations up to there do. */
  ghost predicate Faithful(tab: seq<Binding>, counts: seq<nat>, open: seq<seq<Binding>>)
    decreases |open|
  {
    && |counts| == |open| && SameBindings(tab, AllOf(open))
    && (open == [] ==> tab == [])
    && (open != [] ==>
      var n := counts[|counts| - 1];
      n <= |tab| && Faithful(tab[..|tab| - n], counts[..|counts| - 1], open[..|open| - 1]))
  }

  // ----- runs -----

  datatype Tag = Start(decls: seq<Binding>) | End

  /** The declarations of the elements still open after the tags. */
  function OpenAfter(open: seq<seq<Binding>>, tags: seq<Tag>): seq<seq<Binding>>
    decreases tags
  {
    if tags == [] then open
    else
      match tags[0]
      case Start(decls) => OpenAfter(open + [decls], tags[1..])
      case End => OpenAfter(if open == [] then [] else open[..|open| - 1], tags[1..])
  }

  class Parser {
    /** The option to leave out redundant declarations. */
    const nsClean: bool
    var nsTab: seq<Binding>
    var nsNrTab: seq<nat>
    ghost var open: seq<seq<Binding>>

    constructor (clean: bool)
      ensures Valid() && nsClean == clean && open == []
    {
      nsClean, nsTab, nsNrTab, open := clean, [], [], [];
    }

    ghost predicate Valid()
      reads this
    {
      Faithful(nsTab, nsNrTab, open) && (nsClean ==> Lean(nsTab))
    }

    method Lookup(prefix: string) returns (uri: string)
      ensures uri == LookupIn(nsTab, prefix)
      ensures
        || (exists k :: InnermostAt(nsTab, prefix, k) && uri == nsTab[k].uri)
        || (uri == "" && forall k :: 0 <= k < |nsTab| ==> nsTab[k].prefix != prefix)
    {
      var i := |nsTab|;
      assert nsTab[..i] == nsTab;
      while i > 0
        invariant 0 <= i <= |nsTab| && LookupIn(nsTab, prefix) == LookupIn(nsTab[..i], prefix)
        invariant forall j :: i <= j < |nsTab| ==> nsTab[j].prefix != prefix
      {
        i := i - 1;
        assert nsTab[..i + 1][..i] == nsTab[..i];
        if nsTab[i].prefix == prefix {
          return nsTab[i].uri;
        }
      }
      uri := "";
    }

    /** The declarations of a start tag: one that binds its prefix as it is bound already may be left out. */
    method StartTag(decls: seq<Binding>)
      requires Valid()
      modifies this
      ensures Valid() && open == old(open) + [decls]
      ensures nsNrTab == old(nsNrTab) + [|nsTab| - |old(nsTab)|] && old(nsTab) <= nsTab
      ensures !nsClean ==> nsTab == old(nsTab) + decls
      ensures nsClean ==> exists picks: seq<nat> :: Picked(nsTab, |old(nsTab)|, decls, picks)
      ensures nsClean ==> forall k :: |old(nsTab)| <= k < |nsTab| ==>
        nsTab[k].defaulted || LookupIn(nsTab[..k], nsTab[k].prefix) != nsTab[k].uri
    {
      hide LookupIn, Picked;
      var nbNs := 0;
      ghost var picks: seq<nat> := [];
      NothingPicked(nsTab);
      ghost var all := AllOf(open);
      assert decls[..0] == [] && all + [] == all && nsTab + [] == nsTab;
      for i := 0 to |decls|
        invariant open == old(open) && nsNrTab == old(nsNrTab)
        invariant |nsTab| == |old(nsTab)| + nbNs && nsTab[..|old(nsTab)|] == old(nsTab)
        invariant SameBindings(nsTab, all + decls[..i])
        invariant nsClean ==> Lean(nsTab) && Picked(nsTab, |old(nsTab)|, decls[..i], picks)
        invariant !nsClean ==> nsTab == old(nsTab) + decls[..i]
      {
        var d := decls[i];
        assert decls[..i + 1] == decls[..i] + [d];
        assert all + decls[..i] + [d] == all + decls[..i + 1];
        LookupPushed(all + decls[..i], d);
        LookupPushed(nsTab, d);
        if nsClean && !d.defaulted {
          var uri := Lookup(d.prefix);
          if uri == d.uri {
            assert SameBindings(nsTab, all + decls[..i + 1]);
            PickedLess(nsTab, |old(nsTab)|, decls[..i], picks, d);
            continue;
          }
        }
        if nsClean {
          LeanPushed(nsTab, d);
          PickedMore(nsTab, |old(nsTab)|, decls[..i], picks, d);
          picks := picks + [i];
        }
        nsTab := nsTab + [d];
        nbNs := nbNs + 1;
      }
      assert decls[..|decls|] == decls;
      nsNrTab := nsNrTab + [nbNs];
      open := open + [decls];
      assert open[..|open| - 1] == old(open) && nsNrTab[..|nsNrTab| - 1] == old(nsNrTab);
      assert nsTab[..|nsTab| - nbNs] == old(nsTab);
    }

    /** An end tag drops what its start tag pushed. */
    method EndTag()
      requires Valid()
      modifies this
      ensures Valid() && open == if old(open) == [] then [] else old(open[..|open| - 1])
    {
      if |nsNrTab| > 0 {
        var nbNs := nsNrTab[|nsNrTab| - 1];
        if nsClean {
          LeanCut(nsTab, |nsTab| - nbNs);
        }
        nsNrTab := nsNrTab[..|nsNrTab| - 1];
        if nbNs > 0 {
          nsTab := nsTab[..|nsTab| - nbNs];
        }
        assert old(nsTab)[..|old(nsTab)| - nbNs] == nsTab;
        open := open[..|open| - 1];
      }
    }

    /**
     * Whether or not redundant declarations are left out, after any run of tags every prefix resolves as in the
     * declarations of the elements open by then.
     */
    method Run(tags: seq<Tag>)
      requires Valid()
      modifies this
      ensures Valid() && open == OpenAfter(old(open), tags)
      ensures forall p :: LookupIn(nsTab, p) == LookupIn(AllOf(OpenAfter(old(open), tags)), p)
      ensures nsClean ==> forall k :: 0 <= k < |nsTab| ==>
        nsTab[k].defaulted || LookupIn(nsTab[..k], nsTab[k].prefix) != nsTab[k].uri
    {
      for i := 0 to |tags|
        invariant Valid() && OpenAfter(open, tags[i..]) == OpenAfter(old(open), tags)
      {
        assert tags[i..][1..] == tags[i + 1..] && tags[i..][0] == tags[i];
        match tags[i] {
          case Start(decls) =>
            StartTag(decls);
          case End =>
            EndTag();
        }
      }
    }
  }

  /** Tags that close every element they open, and no other. */
  predicate Nested(tags: seq<Tag>, depth: nat)
    decreases tags
  {
    if tags == [] then depth == 0
    else if tags[0].Start? then Nested(tags[1..], depth + 1)
    else depth > 0 && Nested(tags[1..], depth - 1)
  }

  /** A well-nested run leaves the open elements, and with them the meaning of every prefix, as it found them. */
  lemma {:induction false} NestedRestores(open: seq<seq<Binding>>, inner: seq<seq<Binding>>, tags: seq<Tag>)
    requires Nested(tags, |inner|)
    ensures OpenAfter(open + inner, tags) == open
    decreases tags
  {
    if tags == [] {
      assert open + inner == open;
    } else if tags[0].Start? {
      var more := inner + [tags[0].decls];
      assert open + inner + [tags[0].decls] == open + more;
      NestedRestores(open, more, tags[1..]);
    } else {
      var less := inner[..|inner| - 1];
      assert (open + inner)[..|open + inner| - 1] == open + less;
      NestedRestores(open, less, tags[1..]);
    }
  }
}
