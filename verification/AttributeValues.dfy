/** Attribute-value normalisation: one pass while parsing, a second one only behind references. */
module AttributeValues {
  import opened Utf8
  import opened CharRefs
  import opened EntityText
  import opened EntityAccounting
  import opened EntityDecoder
  import opened AttributeNormalization
  import opened Wrappers

  /**
   * What an attribute value is made of: a character that is no white space, white space, a character reference; a
   * reference that stands for `bytes` (a predefined entity, or one that is kept as a reference), one to an undeclared
   * entity that is let pass, and one to a declared entity that is replaced by its `content`.
   */
  datatype Token =
    Char(bytes: seq<Byte>) | White | CharRef(r: int) | Text(bytes: seq<Byte>) | Missing | Content(content: seq<Byte>)

  predicate WellFormed(t: Token) {
    && (t.Char? ==> IsWord(t.bytes) && forall b :: b in t.bytes ==> !IsBreak(b))
    && (t.CharRef? ==> IsScalar(t.r))
  }

  /** `&#38;`, the ampersand that stays a reference */
  function Ampersand(): seq<Byte> {
    [AMP, HASH] + Ascii("38") + [SEMI]
  }

  /** What a token contributes to the value. An ampersand stays a reference unless entities are replaced. */
  function Written(c: Config, t: Token, replaceEntities: bool, st: State): Outcome {
    match t
    case Char(bytes) => Finished(bytes, st)
    case White => Finished([SPACE], st)
    case CharRef(r) =>
      Finished(if r == AMP && !replaceEntities then Ampersand() else if IsScalar(r) then Encode(r) else [], st)
    case Text(bytes) => Finished(bytes, st)
    case Missing =>
      var paid := Charged(c.budget, st.size, Due(None, 0));
      if paid.None? then Failed else Finished([], st.(size := paid.value))
    case Content(content) =>
      var d := DecodeText(c, content, LevelsLeft(0), st);
      if d.Failed? then Failed else Finished(Stored(AttrSink(0), d.out), d.st)
  }

  /** A reference to an undeclared entity contributes nothing and is charged 20. */
  lemma MissingCharged(c: Config, replaceEntities: bool, st: State)
    requires c.budget.account && c.budget.maxAmpl == 0 && 0 <= st.size && st.size + 20 <= 1_000_000_000
    ensures Written(c, Missing, replaceEntities, st) == Finished([], st.(size := st.size + 20))
  {
    ChargedLiterally(c.budget, st.size, None, 0);
  }

  /** The value before any white space is dropped. */
  function CData(c: Config, tokens: seq<Token>, replaceEntities: bool, st: State): Outcome {
    if tokens == [] then Finished([], st)
    else
      var n := |tokens| - 1;
      var init := CData(c, tokens[..n], replaceEntities, st);
      if init.Failed? then Failed else Prefix(init.out, Written(c, tokens[n], replaceEntities, init.st))
  }

  /** A reference that is kept goes into the value as it stands, wherever it stands. */
  lemma TextKept(c: Config, tokens: seq<Token>, bytes: seq<Byte>, replaceEntities: bool, st: State)
    requires CData(c, tokens, replaceEntities, st).Finished?
    ensures var w := CData(c, tokens, replaceEntities, st);
      CData(c, tokens + [Text(bytes)], replaceEntities, st) == Finished(w.out + bytes, w.st)
  {
    assert (tokens + [Text(bytes)])[..|tokens|] == tokens;
  }

  lemma CDataMore(c: Config, tokens: seq<Token>, k: nat, replaceEntities: bool, st: State)
    requires k < |tokens|
    ensures CData(c, tokens[..k + 1], replaceEntities, st) ==
      var init := CData(c, tokens[..k], replaceEntities, st);
      if init.Failed? then Failed else Prefix(init.out, Written(c, tokens[k], replaceEntities, init.st))
  {
    assert tokens[..k + 1][..k] == tokens[..k];
  }

  /** What is lost stays lost. */
  lemma {:induction false} CDataLonger(c: Config, tokens: seq<Token>, k: nat, replaceEntities: bool, st: State)
    requires k <= |tokens| && CData(c, tokens, replaceEntities, st).Finished?
    ensures CData(c, tokens[..k], replaceEntities, st).Finished?
    ensures |CData(c, tokens[..k], replaceEntities, st).out| <= |CData(c, tokens, replaceEntities, st).out|
    decreases |tokens|
  {
    if k == |tokens| {
      assert tokens[..k] == tokens;
    } else {
      CDataLonger(c, tokens[..|tokens| - 1], k, replaceEntities, st);
      assert tokens[..|tokens| - 1][..k] == tokens[..k];
    }
  }

  // ----- the pass -----

  /** A space came last; how many references there were; whether white space was dropped. */
  datatype Pass = Pass(inSpace: bool, entities: nat, changed: bool)

  /** Where the pass stands when it has written `b` for tokens that come to `cdata`. */
  ghost predicate Passed(b: seq<Byte>, cdata: seq<Byte>, normalize: bool, p: Pass) {
    && (if p.changed then normalize && |b| < |cdata| else b == cdata)
    && Like(b, cdata)
    && (normalize && p.inSpace ==> b != [] && b[|b| - 1] == SPACE)
    && (normalize && p.entities == 0 ==> b == Collapse(b) + (if p.inSpace then [SPACE] else []) && p.inSpace == Owed(b))
  }

  lemma PassStarts(normalize: bool)
    ensures Passed([], [], normalize, Pass(false, 0, false))
  {
    Nothing();
  }

  lemma PassedText(b: seq<Byte>, cdata: seq<Byte>, normalize: bool, p: Pass, text: seq<Byte>)
    requires Passed(b, cdata, normalize, p)
    ensures Passed(b + text, cdata + text, normalize, Pass(false, p.entities + 1, p.changed))
  {
    hide Words, Collapse;
    LikeAppend(b, cdata, text);
  }

  lemma PassedByte(b: seq<Byte>, cdata: seq<Byte>, normalize: bool, p: Pass, c: Byte)
    requires Passed(b, cdata, normalize, p) && c != SPACE
    ensures Passed(b + [c], cdata + [c], normalize, p.(inSpace := false))
  {
    hide Words, Collapse, Owed;
    LikeAppend(b, cdata, [c]);
    ByteMore(b, c);
  }

  lemma {:induction false} PassedWord(b: seq<Byte>, cdata: seq<Byte>, normalize: bool, p: Pass, w: seq<Byte>)
    requires Passed(b, cdata, normalize, p) && IsWord(w)
    ensures Passed(b + w, cdata + w, normalize, p.(inSpace := false))
    decreases |w|
  {
    hide Passed;
    var n := |w| - 1;
    var init, c := w[..n], w[n];
    assert w == init + [c] && c in w;
    if n == 0 {
      assert w == [c];
      PassedByte(b, cdata, normalize, p, c);
    } else {
      PassedWord(b, cdata, normalize, p, init);
      PassedByte(b + init, cdata + init, normalize, p.(inSpace := false), c);
      assert b + w == b + init + [c] && cdata + w == cdata + init + [c];
    }
  }

  lemma PassedSpace(b: seq<Byte>, cdata: seq<Byte>, normalize: bool, p: Pass)
    requires Passed(b, cdata, normalize, p) && (!normalize || (b != [] && !p.inSpace))
    ensures Passed(b + [SPACE], cdata + [SPACE], normalize, p.(inSpace := true))
  {
    hide Words, Collapse;
    LikeAppend(b, cdata, [SPACE]);
    ByteMore(b, SPACE);
    if normalize && p.entities == 0 {
      NoWords(b);
      assert Collapse(b) + [] == Collapse(b);
    }
  }

  lemma PassedDrop(b: seq<Byte>, cdata: seq<Byte>, p: Pass)
    requires Passed(b, cdata, true, p) && (b == [] || p.inSpace)
    ensures Passed(b, cdata + [SPACE], true, p.(changed := true))
  {
    hide Words, Collapse;
    LikeDropped(b, cdata);
  }

  lemma PassedShorter(b: seq<Byte>, cdata: seq<Byte>, normalize: bool, p: Pass)
    requires Passed(b, cdata, normalize, p)
    ensures |b| <= |cdata|
  {
  }

  /** White space, dropped at the front and behind a space when values are normalised. */
  method WriteWhite(normalize: bool, p: Pass, sink: Sink, ghost cdata: seq<Byte>) returns (ok: bool, p': Pass)
    requires sink.Valid() && sink.kind.AttrSink? && Passed(sink.buf, cdata, normalize, p)
    modifies sink
    ensures sink.Valid()
    ensures if ok then Passed(sink.buf, cdata + [SPACE], normalize, p') else !Fits(sink.kind, |cdata| + 1)
  {
    hide Passed;
    ok, p' := true, p;
    PassedShorter(sink.buf, cdata, normalize, p);
    if |sink.buf| > 0 || !normalize {
      if !normalize || !p.inSpace {
        PassedSpace(sink.buf, cdata, normalize, p);
        ok := sink.WriteAttr([SPACE]);
      } else {
        PassedDrop(sink.buf, cdata, p);
        p' := p'.(changed := true);
      }
      p' := p'.(inSpace := true);
    } else {
      PassedDrop(sink.buf, cdata, p);
      p' := p'.(changed := true);
    }
  }

  /** One token: what it contributes is added to the value, or white space is dropped. */
  method WriteToken(
    t: Token, normalize: bool, replaceEntities: bool, p: Pass, decoder: Decoder, sink: Sink, ghost cdata: seq<Byte>)
    returns (ok: bool, p': Pass)
    requires sink.Valid() && sink.kind.AttrSink? && WellFormed(t) && Passed(sink.buf, cdata, normalize, p)
    modifies decoder, sink
    ensures sink.Valid()
    ensures var w := Written(decoder.config, t, replaceEntities, old(decoder.Now()));
      if ok then w.Finished? && decoder.Now() == w.st && Passed(sink.buf, cdata + w.out, normalize, p')
      else w.Failed? || !Fits(sink.kind, |cdata| + |w.out|)
  {
    hide Passed, Charged, DecodeText, IsWord, Encode;
    ok, p' := true, p;
    PassedShorter(sink.buf, cdata, normalize, p);
    ghost var w := Written(decoder.config, t, replaceEntities, decoder.Now());
    if t.Char? {
      PassedWord(sink.buf, cdata, normalize, p, t.bytes);
      p' := p.(inSpace := false);
      ok := sink.WriteAttr(t.bytes);
      return;
    }
    if t.White? {
      ok, p' := WriteWhite(normalize, p, sink, cdata);
      return;
    }
    if w.Finished? {
      PassedText(sink.buf, cdata, normalize, p, w.out);
    }
    p' := Pass(false, p.entities + 1, p.changed);
    match t {
      case CharRef(r) =>
        ok := sink.WriteAttr(if r == AMP && !replaceEntities then Ampersand() else Encode(r));
      case Text(bytes) =>
        ok := sink.WriteAttr(bytes);
      case Missing =>
        ok := decoder.EntityCheck(Due(None, 0));
        assert sink.buf + [] == sink.buf;
      case Content(content) =>
        ok := decoder.DecodeToSink(content, 0, sink);
        SameStored(sink.kind, DecodeText(decoder.config, content, LevelsLeft(0), old(decoder.Now())));
    }
  }

  lemma SameStored(kind: SinkKind, d: Outcome)
    requires kind.AttrSink?
    ensures d.Finished? ==> Stored(kind, d.out) == Stored(AttrSink(0), d.out)
  {
  }

  /**
   * `parseAttributeValueInternal`, with the number of references met and whether white space was dropped. It fails only
   * where a reference cannot be replaced or the value is over the limit.
   */
  method ParseAttributeValue(
    tokens: seq<Token>, normalize: bool, replaceEntities: bool, decoder: Decoder, sink: Sink)
    returns (ok: bool, value: seq<Byte>, entities: nat, changed: bool)
    requires sink.Valid() && sink.kind.AttrSink? && sink.buf == [] && forall t :: t in tokens ==> WellFormed(t)
    modifies decoder, sink
    ensures var r := CData(decoder.config, tokens, replaceEntities, old(decoder.Now()));
      if ok then r.Finished? && decoder.Now() == r.st && PassOver(value, r.out, normalize, entities, changed)
      else r.Failed? || !Fits(sink.kind, |r.out|)
  {
    hide Passed, Written, Fits, WellFormed;
    var p := Pass(false, 0, false);
    PassStarts(normalize);
    for k := 0 to |tokens|
      invariant sink.Valid()
      invariant var r := CData(decoder.config, tokens[..k], replaceEntities, old(decoder.Now()));
        r.Finished? && decoder.Now() == r.st && Passed(sink.buf, r.out, normalize, p)
    {
      ghost var r := CData(decoder.config, tokens[..k], replaceEntities, old(decoder.Now()));
      CDataMore(decoder.config, tokens, k, replaceEntities, old(decoder.Now()));
      assert tokens[k] in tokens;
      ok, p := WriteToken(tokens[k], normalize, replaceEntities, p, decoder, sink, r.out);
      if !ok {
        OverLimit(decoder.config, tokens, k + 1, replaceEntities, old(decoder.Now()), sink.kind);
        value, entities, changed := [], 0, false;
        return;
      }
    }
    assert tokens[..|tokens|] == tokens;
    ok, entities := true, p.entities;
    value, changed := Trim(sink.buf, CData(decoder.config, tokens, replaceEntities, old(decoder.Now())).out, normalize, p);
  }

  lemma OverLimit(c: Config, tokens: seq<Token>, k: nat, replaceEntities: bool, st: State, kind: SinkKind)
    requires k <= |tokens|
    requires var r := CData(c, tokens[..k], replaceEntities, st); r.Failed? || !Fits(kind, |r.out|)
    ensures var r := CData(c, tokens, replaceEntities, st); r.Failed? || !Fits(kind, |r.out|)
  {
    hide CData;
    if CData(c, tokens, replaceEntities, st).Finished? {
      CDataLonger(c, tokens, k, replaceEntities, st);
    }
  }

  /** How the value that is read relates to the one with all its white space. */
  ghost predicate PassOver(value: seq<Byte>, cdata: seq<Byte>, normalize: bool, entities: nat, changed: bool) {
    && (if changed then normalize && |value| < |cdata| else value == cdata)
    && Words(value) == Words(cdata)
    && (normalize && entities == 0 ==> value == Collapse(cdata))
  }

  /** Trailing spaces go when values are normalised. */
  method Trim(b: seq<Byte>, ghost cdata: seq<Byte>, normalize: bool, p: Pass) returns (value: seq<Byte>, changed: bool)
    requires Passed(b, cdata, normalize, p)
    ensures PassOver(value, cdata, normalize, p.entities, changed)
  {
    hide Words, Collapse, Owed, Like;
    value, changed := b, p.changed;
    LikeWords(b, cdata);
    if p.inSpace && normalize {
      changed := true;
      ghost var collapsed := Collapse(b);
      while |value| > 0 && value[|value| - 1] == SPACE
        invariant Words(value) == Words(b) && |value| <= |b|
        invariant |value| < |b| || (b != [] && b[|b| - 1] == SPACE && value == b)
        invariant p.entities == 0 ==> value == b || value == collapsed
      {
        SpaceBehind(value[..|value| - 1]);
        assert value[..|value| - 1] + [SPACE] == value;
        NeverEndsInSpace(b);
        value := value[..|value| - 1];
      }
      SameWords(value, b);
    }
    SameWords(value, cdata);
  }

  /** The value section 3.3.3 of XML 1.0 makes of `cdata`, by the type of the attribute. */
  function OfType(cdata: seq<Byte>, normalize: bool): seq<Byte> {
    if normalize then Collapse(cdata) else cdata
  }

  /**
   * The part of `parseAttribute` that settles the value: white space is collapsed as section 3.3.3 asks for, whatever
   * mix of text and references it comes from, and `changed` tells whether that made a difference.
   */
  method NormalizedValue(
    tokens: seq<Token>, normalize: bool, replaceEntities: bool, decoder: Decoder, sink: Sink)
    returns (ok: bool, value: seq<Byte>, changed: bool)
    requires sink.Valid() && sink.kind.AttrSink? && sink.buf == [] && forall t :: t in tokens ==> WellFormed(t)
    modifies decoder, sink
    ensures var r := CData(decoder.config, tokens, replaceEntities, old(decoder.Now()));
      if ok then
        && r.Finished? && decoder.Now() == r.st
        && value == (if normalize then Collapse(r.out) else r.out) && changed == (value != r.out)
      else r.Failed? || !Fits(sink.kind, |r.out|)
  {
    hide Words, Collapse, CData, Fits, WellFormed;
    var entities;
    ok, value, entities, changed := ParseAttributeValue(tokens, normalize, replaceEntities, decoder, sink);
    if !ok {
      return;
    }
    SameWords(value, CData(decoder.config, tokens, replaceEntities, old(decoder.Now())).out);
    if normalize && entities > 0 {
      var nv := AttrNormalizeSpace(value);
      CollapseShorter(value);
      if nv != value {
        changed := true;
      }
      value := nv;
    }
  }
}
