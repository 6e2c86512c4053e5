/** Attribute values where entities are not replaced: ampersands stay references, and read back they are the value meant. */
module AttributeKept {
  import opened Utf8
  import opened CharRefs
  import opened EntityText
  import opened EntityAccounting
  import opened EntityDecoder
  import opened AttributeNormalization
  import opened AttributeValues
  import opened AttributeExpansion
  import opened Wrappers

  /** A byte as it is kept: an ampersand as its character reference. */
  function Keep(b: Byte): seq<Byte> {
    if b == '&' as int then ['&' as int, '#' as int, '3' as int, '8' as int, ';' as int] else [b]
  }

  function KeepAll(s: seq<Byte>): seq<Byte> {
    if s == [] then [] else KeepAll(s[..|s| - 1]) + Keep(s[|s| - 1])
  }

  /** The character references in the text read back; any other byte stands for itself. */
  function ReadBack(s: seq<Byte>, xml11: bool): seq<Byte>
    decreases |s|
  {
    if s == [] then []
    else if CharRefs.Reference(s, xml11).Some? then
      NeverShorter(s, xml11);
      var v := CharRefs.Reference(s, xml11).value;
      Encode(v.r) + ReadBack(s[v.width..], xml11)
    else [s[0]] + ReadBack(s[1..], xml11)
  }

  lemma KeepLast(s: seq<Byte>, c: Byte)
    ensures KeepAll(s + [c]) == KeepAll(s) + Keep(c)
  {
    assert (s + [c])[..|s|] == s;
  }

  lemma KeepNone()
    ensures KeepAll([]) == []
  {
  }

  lemma NothingBehind(s: seq<Byte>)
    ensures s + [] == s
  {
  }

  lemma Regroup(a: seq<Byte>, b: seq<Byte>, c: seq<Byte>)
    ensures (a + b) + c == a + (b + c)
  {
  }

  lemma {:induction false} KeepMore(a: seq<Byte>, b: seq<Byte>)
    ensures KeepAll(a + b) == KeepAll(a) + KeepAll(b)
  {
    hide Keep, KeepAll;
    if b == [] {
      assert a + b == a;
      KeepNone();
      NothingBehind(KeepAll(a));
    } else {
      var init, c := b[..|b| - 1], b[|b| - 1];
      KeepMore(a, init);
      assert a + b == (a + init) + [c] && b == init + [c];
      KeepLast(a + init, c);
      KeepLast(init, c);
      Regroup(KeepAll(a), KeepAll(init), Keep(c));
    }
  }

  lemma KeepOne(b: Byte)
    ensures KeepAll([b]) == Keep(b)
  {
    assert [b][..0] == [];
  }

  /** What is kept of an ampersand reads back as the ampersand. */
  lemma KeptReads(rest: seq<Byte>, xml11: bool)
    ensures CharRefs.Reference(Keep('&' as int) + rest, xml11) == Some(CharRefs.CharRef('&' as int, 5))
  {
    var s, digits := Keep('&' as int) + rest, ['3' as int, '8' as int];
    assert digits[..1] == ['3' as int] && ['3' as int][..0] == [];
    assert Numeral(['3' as int], false) == 3;
    assert AllDigits(digits, false) && Numeral(digits, false) == 38;
    assert s == Opener(false) + digits + [SEMI] + rest;
    BodySpelled(s, false, digits, xml11);
    assert Opener(true)[2] != s[2];
  }

  /** Nothing is read as a reference that does not start with an ampersand. */
  lemma NoReference(s: seq<Byte>, xml11: bool)
    requires s != [] && s[0] != '&' as int
    ensures CharRefs.Reference(s, xml11).None?
  {
    assert Opener(true)[0] == AMP && Opener(false)[0] == AMP;
  }

  lemma {:induction false} KeptReadBack(s: seq<Byte>, xml11: bool)
    ensures ReadBack(KeepAll(s), xml11) == s
    decreases |s|
  {
    hide CharRefs.Reference;
    if s != [] {
      var rest := KeepAll(s[1..]);
      assert s == [s[0]] + s[1..];
      KeepMore([s[0]], s[1..]);
      KeepOne(s[0]);
      KeptReadBack(s[1..], xml11);
      if s[0] == '&' as int {
        KeptReads(rest, xml11);
        assert (Keep(s[0]) + rest)[5..] == rest;
      } else {
        NoReference([s[0]] + rest, xml11);
        assert ([s[0]] + rest)[1..] == rest;
      }
    }
  }

  /** Every ampersand that is kept starts a reference to the ampersand. */
  lemma {:induction false} KeptAmpersands(s: seq<Byte>, xml11: bool, i: nat)
    requires i < |KeepAll(s)| && KeepAll(s)[i] == '&' as int
    ensures CharRefs.Reference(KeepAll(s)[i..], xml11) == Some(CharRefs.CharRef('&' as int, 5))
    decreases |s|
  {
    hide CharRefs.Reference, KeepAll;
    if s == [] {
      KeepNone();
    }
    var rest := KeepAll(s[1..]);
    assert s == [s[0]] + s[1..];
    KeepMore([s[0]], s[1..]);
    KeepOne(s[0]);
    var k := |Keep(s[0])|;
    if i == 0 {
      KeptReads(rest, xml11);
    } else if i >= k {
      KeptAmpersands(s[1..], xml11, i - k);
      assert KeepAll(s)[i..] == rest[i - k..];
    }
  }

  // ----- collapsing what is kept -----

  lemma {:induction false} WordMore(s: seq<Byte>, w: seq<Byte>)
    requires IsWord(w)
    ensures Collapse(s + w) == Collapse(s) + (if Owed(s) then [SPACE] else []) + w && !Owed(s + w)
    decreases |w|
  {
    hide Collapse, Owed;
    var init, c := w[..|w| - 1], w[|w| - 1];
    assert w == init + [c] && c in w;
    assert s + w == (s + init) + [c];
    ByteMore(s + init, c);
    if init == [] {
      assert s + init == s;
    } else {
      WordMore(s, init);
      assert Collapse(s + init) + [] + [c] == Collapse(s) + (if Owed(s) then [SPACE] else []) + w;
    }
  }

  lemma {:induction false} KeptCollapses(s: seq<Byte>)
    ensures Collapse(KeepAll(s)) == KeepAll(Collapse(s)) && Owed(KeepAll(s)) == Owed(s)
    ensures Words(KeepAll(s)) == [] <==> Words(s) == []
    decreases |s|
  {
    hide Collapse, Owed, Words, Keep;
    if s == [] {
      Nothing();
    } else {
      var init, c := s[..|s| - 1], s[|s| - 1];
      assert s == init + [c];
      KeptCollapses(init);
      ByteMore(init, c);
      KeepWord(c);
      WordsOneMore(init, c);
      if c == SPACE {
        ByteMore(KeepAll(init), SPACE);
        WordsOneMore(KeepAll(init), SPACE);
      } else {
        var owed := if Owed(init) then [SPACE] else [];
        WordMore(KeepAll(init), Keep(c));
        SomeWordIn(KeepAll(init) + Keep(c), Keep(c));
        SomeWord(s);
        KeepMore(Collapse(init) + owed, [c]);
        KeepMore(Collapse(init), owed);
        KeepOne(c);
        KeepSpaces(owed);
      }
    }
  }

  lemma KeepWord(c: Byte)
    ensures if c == SPACE then Keep(c) == [SPACE] else IsWord(Keep(c))
  {
  }

  lemma KeepSpaces(s: seq<Byte>)
    requires s == [] || s == [SPACE]
    ensures KeepAll(s) == s
  {
    KeepOne(SPACE);
  }

  lemma SomeWordIn(s: seq<Byte>, w: seq<Byte>)
    requires IsWord(w) && |w| <= |s| && s[|s| - |w|..] == w
    ensures Words(s) != []
  {
    assert w[|w| - 1] == s[|s| - 1] && w[|w| - 1] in w;
    SomeWord(s);
  }

  // ----- the value -----

  /** Characters, white space, character references and predefined entities; an ampersand only as a reference. */
  predicate PlainTokens(tokens: seq<Token>) {
    forall i :: 0 <= i < |tokens| ==>
      var t := tokens[i];
      WellFormed(t) && (t.White? || t.CharRef? || ((t.Char? || t.Text?) && '&' as int !in t.bytes))
  }

  lemma {:induction false} KeepOthers(s: seq<Byte>)
    requires '&' as int !in s
    ensures KeepAll(s) == s
  {
    if s != [] {
      KeepOthers(s[..|s| - 1]);
    }
  }

  lemma KeptToken(c: Config, t: Token, st: State)
    requires PlainTokens([t])
    ensures RequiredOf(c.env, t, st.pes).Some?
    ensures Written(c, t, false, st) == Finished(KeepAll(RequiredOf(c.env, t, st.pes).value), st)
  {
    hide Encode, KeepAll;
    assert [t][0] == t;
    if t.CharRef? {
      if t.r == '&' as int {
        AmpersandKept();
        KeepOne('&' as int);
      } else {
        KeepOthers(Encode(t.r));
      }
    } else if t.White? {
      KeepOthers([SPACE]);
    } else {
      KeepOthers(t.bytes);
    }
  }

  lemma AmpersandKept()
    ensures Ampersand() == Keep('&' as int)
  {
    assert Ascii("8") == ['8' as int];
  }

  lemma {:induction false} KeptTokens(c: Config, tokens: seq<Token>, st: State)
    requires PlainTokens(tokens)
    ensures Required(c.env, tokens, st.pes).Some?
    ensures CData(c, tokens, false, st) == Finished(KeepAll(Required(c.env, tokens, st.pes).value), st)
    decreases |tokens|
  {
    hide Written, RequiredOf, WellFormed;
    if tokens != [] {
      var init, last := tokens[..|tokens| - 1], tokens[|tokens| - 1];
      KeptTokens(c, init, st);
      KeptToken(c, last, st);
      KeepMore(Required(c.env, init, st.pes).value, RequiredOf(c.env, last, st.pes).value);
    }
  }

  /**
   * Where entities are not replaced, a value of characters, white space and character references is that of section
   * 3.3.3 once its references are read back, for either type, and every ampersand in it starts a reference to one.
   */
  lemma KeptValue(c: Config, tokens: seq<Token>, st: State, normalize: bool, xml11: bool)
    requires PlainTokens(tokens)
    ensures CData(c, tokens, false, st).Finished? && Required(c.env, tokens, st.pes).Some?
    ensures var value := OfType(CData(c, tokens, false, st).out, normalize);
      && ReadBack(value, xml11) == OfType(Required(c.env, tokens, st.pes).value, normalize)
      && forall i :: 0 <= i < |value| && value[i] == '&' as int ==>
          CharRefs.Reference(value[i..], xml11) == Some(CharRefs.CharRef('&' as int, 5))
  {
    hide CData, Required, Collapse, CharRefs.Reference;
    KeptTokens(c, tokens, st);
    var n := Required(c.env, tokens, st.pes).value;
    KeptCollapses(n);
    var value := OfType(CData(c, tokens, false, st).out, normalize);
    assert value == KeepAll(OfType(n, normalize));
    KeptReadBack(OfType(n, normalize), xml11);
    forall i | 0 <= i < |value| && value[i] == '&' as int
      ensures CharRefs.Reference(value[i..], xml11) == Some(CharRefs.CharRef('&' as int, 5))
    {
      KeptAmpersands(OfType(n, normalize), xml11, i);
    }
  }

  /** The value of an attribute as it is read without replacing entities, against section 3.3.3. */
  method UnreplacedValue(tokens: seq<Token>, normalize: bool, decoder: Decoder, sink: Sink)
    returns (ok: bool, value: seq<Byte>, changed: bool)
    requires sink.Valid() && sink.kind.AttrSink? && sink.buf == [] && PlainTokens(tokens)
    modifies decoder, sink
    ensures sink.kind.cap == 0 ==> ok
    ensures ok ==>
      var n := Required(decoder.config.env, tokens, old(decoder.hasPERefs));
      n.Some? && forall xml11 :: ReadBack(value, xml11) == OfType(n.value, normalize)
    ensures ok ==> forall xml11, i :: 0 <= i < |value| && value[i] == '&' as int ==>
      CharRefs.Reference(value[i..], xml11) == Some(CharRefs.CharRef('&' as int, 5))
  {
    hide CData, Required, CharRefs.Reference, ReadBack, WellFormed;
    ghost var st := decoder.Now();
    ok, value, changed := NormalizedValue(tokens, normalize, false, decoder, sink);
    KeptValue(decoder.config, tokens, st, normalize, false);
    KeptValue(decoder.config, tokens, st, normalize, true);
  }
}
