/** The words of an attribute value, and the collapsing of the white space around them. */
module AttributeNormalization {
  import opened Utf8
  import opened EntityText

  // ----- the words of a value -----

  /** The runs of characters between spaces. */
  function Words(s: seq<Byte>): (ws: seq<seq<Byte>>)
    ensures forall i :: 0 <= i < |ws| ==> IsWord(ws[i])
    ensures s != [] && s[|s| - 1] != SPACE ==> ws != []
  {
    if s == [] then []
    else
      var n := |s| - 1;
      var ws := Words(s[..n]);
      if s[n] == SPACE then ws
      else if n == 0 || s[n - 1] == SPACE then ws + [[s[n]]]
      else ws[..|ws| - 1] + [ws[|ws| - 1] + [s[n]]]
  }

  predicate IsWord(w: seq<Byte>) {
    w != [] && SPACE !in w
  }

  function Join(ws: seq<seq<Byte>>): seq<Byte> {
    if ws == [] then []
    else if |ws| == 1 then ws[0]
    else Join(ws[..|ws| - 1]) + [SPACE] + ws[|ws| - 1]
  }

  /** The value as section 3.3.3 gives it for other types: leading and trailing spaces go, runs become one. */
  function Collapse(s: seq<Byte>): seq<Byte> {
    Join(Words(s))
  }

  lemma WordsOneMore(s: seq<Byte>, c: Byte)
    ensures Words(s + [c]) ==
      if c == SPACE then Words(s)
      else if s == [] || s[|s| - 1] == SPACE then Words(s) + [[c]]
      else Words(s)[..|Words(s)| - 1] + [Words(s)[|Words(s)| - 1] + [c]]
  {
    assert (s + [c])[..|s|] == s;
  }

  lemma {:induction false} WordsAppend(s: seq<Byte>, w: seq<Byte>)
    requires IsWord(w) && (s == [] || s[|s| - 1] == SPACE)
    ensures Words(s + w) == Words(s) + [w]
  {
    hide Words;
    var n := |w| - 1;
    var c := w[n];
    assert c in w;
    if n == 0 {
      assert w == [c];
    } else {
      var init := w[..n];
      WordsAppend(s, init);
      assert w[n - 1] in w && (s + init)[|s + init| - 1] == w[n - 1];
      assert s + w == s + init + [c] && init + [c] == w;
      LastReplaced(Words(s), init, w);
    }
    WordsOneMore(s + w[..n], c);
    assert s + w[..n] + [c] == s + w;
    assert n == 0 ==> s + w[..n] == s;
  }

  lemma LastReplaced(ws: seq<seq<Byte>>, a: seq<Byte>, b: seq<Byte>)
    ensures (ws + [a])[..|ws + [a]| - 1] + [b] == ws + [b] && (ws + [a])[|ws + [a]| - 1] == a
  {
  }

  lemma {:induction false} WordsOfJoin(ws: seq<seq<Byte>>)
    requires forall i :: 0 <= i < |ws| ==> IsWord(ws[i])
    ensures Words(Join(ws)) == ws
    ensures ws != [] ==> Join(ws) != [] && Join(ws)[|Join(ws)| - 1] != SPACE
  {
    hide Words, Join;
    NoText();
    JoinNone();
    if ws != [] {
      var n := |ws| - 1;
      var init, w := ws[..n], ws[n];
      assert w[|w| - 1] in w;
      assert ws == init + [w];
      JoinOneMore(init, w);
      if n == 0 {
        WordsAppend([], w);
        assert [] + w == w;
        assert Words(w) == [] + [w] == ws;
      } else {
        WordsOfJoin(init);
        SpaceBehind(Join(init));
        WordsAppend(Join(init) + [SPACE], w);
        LastOfJoin(Join(init), w);
      }
    }
  }

  lemma LastOfJoin(a: seq<Byte>, w: seq<Byte>)
    requires w != []
    ensures (a + [SPACE] + w) != [] && (a + [SPACE] + w)[|a + [SPACE] + w| - 1] == w[|w| - 1]
  {
  }

  lemma JoinOneMore(ws: seq<seq<Byte>>, w: seq<Byte>)
    ensures Join(ws + [w]) == if ws == [] then w else Join(ws) + [SPACE] + w
  {
    assert (ws + [w])[..|ws|] == ws;
  }

  lemma JoinNone()
    ensures Join([]) == []
  {
  }

  lemma NoText()
    ensures Words([]) == []
  {
  }

  lemma SpaceBehind(s: seq<Byte>)
    ensures Words(s + [SPACE]) == Words(s)
  {
    assert (s + [SPACE])[..|s|] == s;
  }

  /** Collapsing twice is collapsing once. */
  lemma CollapseIdempotent(s: seq<Byte>)
    ensures Collapse(Collapse(s)) == Collapse(s)
  {
    WordsOfJoin(Words(s));
  }

  // ----- collapsing as it is done -----

  /** The collapsed text so far, and whether a space is owed before the next word. */
  function Owed(s: seq<Byte>): bool {
    s != [] && s[|s| - 1] == SPACE && Words(s) != []
  }

  /** One more character. */
  lemma ByteMore(s: seq<Byte>, c: Byte)
    ensures Collapse(s + [c]) == if c == SPACE then Collapse(s) else Collapse(s) + (if Owed(s) then [SPACE] else []) + [c]
    ensures Owed(s + [c]) == (c == SPACE && Words(s) != [])
  {
    hide Words, Join;
    WordsOneMore(s, c);
    SomeWord(s);
    NoText();
    JoinNone();
    if c != SPACE && s != [] && s[|s| - 1] != SPACE {
      JoinLonger(Words(s), c);
    } else if c != SPACE {
      JoinOneMore(Words(s), [c]);
      NoWords(s);
      assert [] + [] + [c] == [c];
      assert Owed(s) == (Words(s) != []);
      assert Collapse(s) + [] + [c] == Collapse(s) + [c];
    }
  }

  lemma JoinLonger(ws: seq<seq<Byte>>, c: Byte)
    requires ws != []
    ensures var n := |ws| - 1; Join(ws[..n] + [ws[n] + [c]]) == Join(ws) + [] + [c]
  {
    hide Join;
    var init, w := ws[..|ws| - 1], ws[|ws| - 1];
    assert ws == init + [w];
    JoinOneMore(init, w);
    JoinOneMore(init, w + [c]);
    Longer(Join(init), w, c);
  }

  lemma Longer(a: seq<Byte>, w: seq<Byte>, c: Byte)
    ensures a + [SPACE] + (w + [c]) == a + [SPACE] + w + [] + [c] && w + [c] == w + [] + [c]
  {
  }

  lemma SomeWord(s: seq<Byte>)
    ensures s != [] && s[|s| - 1] != SPACE ==> Words(s) != []
  {
  }

  lemma {:induction false} NoWords(s: seq<Byte>)
    ensures Words(s) == [] ==> Collapse(s) == [] && !Owed(s)
  {
  }

  lemma Next(s: seq<Byte>, i: nat)
    requires i < |s|
    ensures Collapse(s[..i + 1]) ==
      if s[i] == SPACE then Collapse(s[..i]) else Collapse(s[..i]) + (if Owed(s[..i]) then [SPACE] else []) + [s[i]]
    ensures Owed(s[..i + 1]) == (s[i] == SPACE && Words(s[..i]) != [])
    ensures Words(s[..i + 1]) == [] <==> s[i] == SPACE && Words(s[..i]) == []
  {
    hide Words, Collapse, Owed;
    assert s[..i + 1] == s[..i] + [s[i]];
    ByteMore(s[..i], s[i]);
    SpaceBehind(s[..i]);
    SomeWord(s[..i + 1]);
  }

  /** `attrNormalizeSpace` */
  method AttrNormalizeSpace(s: seq<Byte>) returns (value: seq<Byte>)
    ensures value == Collapse(s)
  {
    hide Words, Collapse, Owed;
    Nothing();
    if |s| == 0 {
      return s;
    }
    var i := 0;
    assert s[..0] == [];
    while i < |s| && s[i] == SPACE
      invariant 0 <= i <= |s| && Words(s[..i]) == [] && Collapse(s[..i]) == [] && !Owed(s[..i])
    {
      Next(s, i);
      i := i + 1;
    }
    var out := [];
    while i < |s|
      invariant 0 <= i <= |s| && out == Collapse(s[..i]) + if Owed(s[..i]) then [SPACE] else []
      invariant i < |s| && s[i] == SPACE ==> Words(s[..i]) != [] && !Owed(s[..i])
      decreases |s| - i
    {
      if s[i] != SPACE {
        Next(s, i);
        out := out + [s[i]];
        i := i + 1;
        continue;
      }
      while i < |s| && s[i] == SPACE
        invariant 0 <= i <= |s| && Words(s[..i]) != [] && out == Collapse(s[..i])
        invariant (i < |s| && s[i] == SPACE) || Owed(s[..i])
      {
        Next(s, i);
        i := i + 1;
      }
      out := out + [SPACE];
    }
    assert s[..|s|] == s;
    if |out| == 0 {
      return [];
    }
    NeverEndsInSpace(s);
    if out[|out| - 1] == SPACE {
      out := out[..|out| - 1];
    }
    value := out;
  }

  lemma Nothing()
    ensures Collapse([]) == [] && !Owed([]) && Words([]) == []
  {
  }

  lemma NeverEndsInSpace(s: seq<Byte>)
    ensures Collapse(s) != [] ==> Collapse(s)[|Collapse(s)| - 1] != SPACE
    ensures Owed(s) ==> Collapse(s) != []
  {
    WordsOfJoin(Words(s));
  }

  // ----- the same, position by position -----

  predicate MoreFrom(s: seq<Byte>, k: nat) {
    exists j :: k <= j < |s| && s[j] != 0x20
  }

  /** A space stays if no space is before it, and other characters are before and behind. */
  predicate Stays(s: seq<Byte>, i: nat)
    requires i < |s|
  {
    s[i] != 0x20 || (i > 0 && s[i - 1] != 0x20 && MoreFrom(s, i + 1))
  }

  /** What stays of the first `k` bytes. */
  function Squeezed(s: seq<Byte>, k: nat): seq<Byte>
    requires k <= |s|
  {
    if k == 0 then [] else Squeezed(s, k - 1) + if Stays(s, k - 1) then [s[k - 1]] else []
  }

  lemma {:induction false} SqueezedSoFar(s: seq<Byte>, k: nat)
    requires k <= |s|
    ensures Squeezed(s, k) == Collapse(s[..k]) + if Owed(s[..k]) && MoreFrom(s, k) then [SPACE] else []
  {
    hide Words, Collapse, Owed;
    if k == 0 {
      Nothing();
      assert s[..0] == [];
    } else {
      var init, c := s[..k - 1], s[k - 1];
      assert s[..k] == init + [c];
      SqueezedSoFar(s, k - 1);
      ByteMore(init, c);
      SomeWord(init);
      OwedExactly(init);
      assert MoreFrom(s, k - 1) <==> c != SPACE || MoreFrom(s, k);
      assert init != [] ==> init[|init| - 1] == s[k - 2];
      Nothing();
      assert Collapse(init) + [] == Collapse(init) && Collapse(s[..k]) + [] == Collapse(s[..k]);
    }
  }

  lemma OwedExactly(s: seq<Byte>)
    ensures Owed(s) <==> s != [] && s[|s| - 1] == SPACE && Words(s) != []
    ensures s != [] && s[|s| - 1] == SPACE ==> Words(s) == Words(s[..|s| - 1])
  {
  }

  /** Collapsing drops exactly the spaces at the ends and behind spaces, and nothing else. */
  lemma CollapseExactly(s: seq<Byte>)
    ensures Collapse(s) == Squeezed(s, |s|)
  {
    hide Collapse, Owed;
    SqueezedSoFar(s, |s|);
    assert s[..|s|] == s;
  }

  // ----- values with the same words -----

  /** A word is under way. */
  predicate Open(s: seq<Byte>) {
    s != [] && s[|s| - 1] != SPACE
  }

  /** The same words so far, and one under way in both or in neither: what follows is split alike. */
  predicate Like(a: seq<Byte>, b: seq<Byte>) {
    Words(a) == Words(b) && Open(a) == Open(b)
  }

  lemma {:induction false} LikeAppend(a: seq<Byte>, b: seq<Byte>, t: seq<Byte>)
    requires Like(a, b)
    ensures Like(a + t, b + t)
  {
    hide Words;
    if t == [] {
      assert a + t == a && b + t == b;
    } else {
      var init, c := t[..|t| - 1], t[|t| - 1];
      LikeAppend(a, b, init);
      WordsOneMore(a + init, c);
      WordsOneMore(b + init, c);
      assert a + t == a + init + [c] && b + t == b + init + [c];
    }
  }

  /** Between words a space more makes no difference. */
  lemma LikeDropped(a: seq<Byte>, b: seq<Byte>)
    requires Like(a, b) && !Open(a)
    ensures Like(a, b + [SPACE])
  {
    SpaceBehind(b);
  }

  lemma {:induction false} CollapseShorter(s: seq<Byte>)
    ensures |Collapse(s)| + (if Owed(s) then 1 else 0) <= |s|
  {
    hide Collapse, Owed;
    if s == [] {
      Nothing();
    } else {
      var n := |s| - 1;
      CollapseShorter(s[..n]);
      ByteMore(s[..n], s[n]);
      assert s == s[..n] + [s[n]];
    }
  }

  lemma LikeWords(a: seq<Byte>, b: seq<Byte>)
    requires Like(a, b)
    ensures Words(a) == Words(b)
  {
  }

  lemma SameWords(a: seq<Byte>, b: seq<Byte>)
    requires Words(a) == Words(b)
    ensures Collapse(a) == Collapse(b)
  {
  }
}
