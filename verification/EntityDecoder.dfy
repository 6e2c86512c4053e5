/** The decoder that writes into a sink while it expands, and what it owes to the plain expansion. */
module EntityDecoder {
  import opened Utf8
  import opened CharRefs
  import opened EntityText
  import opened EntityExpansion
  import opened EntityAccounting
  import opened Wrappers

  /** The plain buffer, or an attribute value with its length limit (none if zero). */
  datatype SinkKind = StringSink | AttrSink(cap: nat)

  predicate Fits(kind: SinkKind, n: nat) {
    kind.StringSink? || kind.cap == 0 || n <= kind.cap
  }

  function StoredByte(kind: SinkKind, b: Byte): Byte {
    if kind.AttrSink? && IsBreak(b) then SPACE else b
  }

  /** What the sink keeps of the bytes written to it. */
  function Stored(kind: SinkKind, bytes: seq<Byte>): (r: seq<Byte>)
    ensures |r| == |bytes| && forall i :: 0 <= i < |r| ==> r[i] == StoredByte(kind, bytes[i])
  {
    if bytes == [] then [] else Stored(kind, bytes[..|bytes| - 1]) + [StoredByte(kind, bytes[|bytes| - 1])]
  }

  lemma StoredMore(kind: SinkKind, a: seq<Byte>, b: seq<Byte>)
    ensures Stored(kind, a + b) == Stored(kind, a) + Stored(kind, b)
  {
  }

  lemma StringStored(bytes: seq<Byte>)
    ensures Stored(StringSink, bytes) == bytes
  {
  }

  class Sink {
    const kind: SinkKind
    var buf: seq<Byte>

    constructor (k: SinkKind)
      ensures kind == k && buf == []
    {
      kind, buf := k, [];
    }

    ghost predicate Valid()
      reads this
    {
      Fits(kind, |buf|)
    }

    method WriteByte(b: Byte) returns (ok: bool)
      requires Valid()
      modifies this
      ensures Valid() && ok == Fits(kind, |old(buf)| + 1)
      ensures buf == if ok then old(buf) + [StoredByte(kind, b)] else old(buf)
      ensures ok && kind.AttrSink? ==> buf[|buf| - 1] == if b == 0x9 || b == 0xA || b == 0xD then 0x20 else b
      ensures ok && kind.StringSink? ==> buf[|buf| - 1] == b
      ensures !ok ==> kind.AttrSink? && kind.cap > 0 && |buf| + 1 > kind.cap
    {
      ok := !(kind.AttrSink? && kind.cap > 0 && |buf| + 1 > kind.cap);
      if ok {
        buf := buf + [if kind.AttrSink? && IsBreak(b) then SPACE else b];
      }
    }

    /** The plain buffer takes all at once, an attribute value byte by byte up to its limit. */
    method Write(p: seq<Byte>) returns (ok: bool)
      requires Valid()
      modifies this
      ensures Valid() && ok == Fits(kind, |old(buf)| + |p|)
      ensures old(buf) <= buf
      ensures ok ==> buf == old(buf) + Stored(kind, p)
    {
      ok := true;
      if kind.StringSink? {
        buf := buf + p;
        StringStored(p);
        return;
      }
      for i := 0 to |p|
        invariant Valid() && buf == old(buf) + Stored(kind, p[..i])
      {
        ok := WriteByte(p[i]);
        if !ok {
          return;
        }
        assert p[..i + 1][..i] == p[..i];
      }
      assert p[..|p|] == p;
    }

    /** `writeAttrString` and its like, which append to an attribute value what needs no normalising. */
    method WriteAttr(p: seq<Byte>) returns (ok: bool)
      requires Valid()
      modifies this
      ensures Valid() && ok == Fits(kind, |old(buf)| + |p|)
      ensures buf == if ok then old(buf) + p else old(buf)
    {
      ok := Fits(kind, |buf| + |p|);
      if ok {
        buf := buf + p;
      }
    }

    /** Only one-byte runes can be white space to normalise. */
    method WriteRune(r: int) returns (ok: bool)
      requires Valid() && IsScalar(r)
      modifies this
      ensures Valid() && ok == Fits(kind, |old(buf)| + |Encode(r)|)
      ensures buf == if ok then old(buf) + Stored(kind, Encode(r)) else old(buf)
    {
      var bytes := Encode(r);
      if kind.StringSink? || r >= 0x80 {
        ok := !(kind.AttrSink? && kind.cap > 0 && |buf| + |bytes| > kind.cap);
        if ok {
          assert Stored(kind, bytes) == bytes;
          buf := buf + bytes;
        }
      } else {
        assert Stored(kind, bytes) == [StoredByte(kind, r)];
        ok := WriteByte(r);
      }
    }
  }

  // ----- one step -----

  lemma PrefixTwice(a: seq<Byte>, b: seq<Byte>, r: Outcome)
    ensures Prefix(a, Prefix(b, r)) == Prefix(a + b, r)
  {
    if r.Finished? {
      assert a + (b + r.out) == a + b + r.out;
    }
  }

  lemma PrefixNothing(r: Outcome)
    ensures Prefix([], r) == r
  {
    if r.Finished? {
      assert [] + r.out == r.out;
    }
  }

  function LevelsLeft(depth: nat): nat {
    if depth > 40 then 0 else 41 - depth
  }

  /** 41 levels from the start, and none behind the fortieth. */
  lemma LevelsExactly(depth: nat)
    ensures depth <= 40 ==> LevelsLeft(depth) + depth == 41
    ensures depth > 40 ==> LevelsLeft(depth) == 0
  {
  }

  /** A decoding that is to end as `whole` has written `done` and goes on with `s`. */
  ghost predicate OnCourse(c: Config, whole: Outcome, done: seq<Byte>, s: seq<Byte>, fuel: nat, st: State) {
    whole == Prefix(done, DecodeText(c, s, fuel, st))
  }

  /** What is written from here on makes the result longer. */
  lemma Longer(c: Config, whole: Outcome, done: seq<Byte>, s: seq<Byte>, fuel: nat, st: State)
    requires OnCourse(c, whole, done, s, fuel, st)
    ensures whole.Finished? ==> |whole.out| >= |done|
  {
    hide DecodeText;
  }

  lemma FlatStep(c: Config, whole: Outcome, done: seq<Byte>, s: seq<Byte>, fuel: nat, st: State)
    requires OnCourse(c, whole, done, s, fuel, st) && fuel > 0 && s != [] && PieceAt(c.env, c.mode, s, st.pes).Flat?
    ensures var p := PieceAt(c.env, c.mode, s, st.pes);
      var paid := Charged(c.budget, st.size, p.charge);
      if paid.None? then whole.Failed?
      else OnCourse(c, whole, done + p.bytes, s[p.width..], fuel, State(paid.value, st.pes || p.pe))
  {
    hide PieceAt, Charged;
    var p := PieceAt(c.env, c.mode, s, st.pes);
    var paid := Charged(c.budget, st.size, p.charge);
    if paid.Some? {
      PrefixTwice(done, p.bytes, DecodeText(c, s[p.width..], fuel, State(paid.value, st.pes || p.pe)));
    }
  }

  lemma InnerStep(c: Config, whole: Outcome, done: seq<Byte>, s: seq<Byte>, fuel: nat, st: State)
    requires OnCourse(c, whole, done, s, fuel, st) && fuel > 0 && s != [] && PieceAt(c.env, c.mode, s, st.pes).Inner?
    ensures var p := PieceAt(c.env, c.mode, s, st.pes);
      var paid := Charged(c.budget, st.size, p.charge);
      if paid.None? then whole.Failed?
      else
        var inner := DecodeText(c, p.body, fuel - 1, State(paid.value, st.pes || p.pe));
        if inner.Failed? then whole.Failed?
        else
          var paid2 := Charged(c.budget, inner.st.size, Due(Some(p.ent), |inner.out|));
          if paid2.None? then whole.Failed?
          else OnCourse(c, whole, done + inner.out, s[p.width..], fuel, inner.st.(size := paid2.value))
  {
    hide PieceAt, Charged;
    var p := PieceAt(c.env, c.mode, s, st.pes);
    var paid := Charged(c.budget, st.size, p.charge);
    if paid.Some? {
      var inner := DecodeText(c, p.body, fuel - 1, State(paid.value, st.pes || p.pe));
      if inner.Finished? {
        var paid2 := Charged(c.budget, inner.st.size, Due(Some(p.ent), |inner.out|));
        if paid2.Some? {
          PrefixTwice(done, inner.out, DecodeText(c, s[p.width..], fuel, inner.st.(size := paid2.value)));
        }
      }
    }
  }

  class Decoder {
    const config: Config
    var sizeentcopy: int
    var hasPERefs: bool

    constructor (c: Config, pes: bool)
      ensures config == c && sizeentcopy == 0 && hasPERefs == pes
    {
      config, sizeentcopy, hasPERefs := c, 0, pes;
    }

    ghost function Now(): State
      reads this
    {
      State(sizeentcopy, hasPERefs)
    }

    /** `entityCheck`, where accounting is on. */
    method EntityCheck(charge: Charge) returns (ok: bool)
      modifies this`sizeentcopy
      ensures ok == Charged(config.budget, old(sizeentcopy), charge).Some?
      ensures ok ==> sizeentcopy == Charged(config.budget, old(sizeentcopy), charge).value
    {
      if charge.Free? || !config.budget.account {
        return true;
      }
      var bytes := if charge.ent.Some? && charge.ent.value.checked then charge.ent.value.expandedSize else charge.n;
      sizeentcopy := SaturatedAdd(sizeentcopy, bytes);
      sizeentcopy := SaturatedAdd(sizeentcopy, FIXED_COST);
      ok := Within(config.budget, sizeentcopy);
    }

    /**
     * `decodeEntitiesToSink`. Whatever the sink, the decoding succeeds exactly when the text can be decoded on the
     * budget and the result fits; then the sink holds the result, normalised, and the counters have moved as they do
     * without a sink.
     */
    method DecodeToSink(s: seq<Byte>, depth: nat, sink: Sink) returns (ok: bool)
      requires sink.Valid()
      modifies this, sink
      ensures sink.Valid()
      ensures var d := DecodeText(config, s, LevelsLeft(depth), old(Now()));
        && (ok <==> d.Finished? && Fits(sink.kind, |old(sink.buf)| + |d.out|))
        && (ok ==> sink.buf == old(sink.buf) + Stored(sink.kind, d.out) && Now() == d.st)
      ensures depth > 40 ==> !ok
      decreases LevelsLeft(depth), 1
    {
      hide PieceAt, DecodeText, Charged, Within;
      ghost var whole := DecodeText(config, s, LevelsLeft(depth), Now());
      if depth > 40 {
        NoLevels(config, s, Now());
        return false;
      }
      var rest := s;
      ghost var done: seq<Byte> := [];
      PrefixNothing(whole);
      assert old(sink.buf) + [] == old(sink.buf);
      while rest != []
        invariant sink.Valid() && sink.buf == old(sink.buf) + Stored(sink.kind, done)
        invariant OnCourse(config, whole, done, rest, LevelsLeft(depth), Now())
        decreases |rest|
      {
        ghost var more;
        ok, rest, more := DecodePiece(rest, depth, sink, whole, done);
        if !ok {
          return;
        }
        StoredMore(sink.kind, done, more);
        assert old(sink.buf) + Stored(sink.kind, done) + Stored(sink.kind, more)
            == old(sink.buf) + Stored(sink.kind, done + more);
        done := done + more;
      }
      NothingLeft(config, whole, done, LevelsLeft(depth), Now());
      ok := true;
    }

    /** A character reference as its rune, unless it is kept; a byte of text; a name, an escape or a reference left alone. */
    method WriteFlat(s: seq<Byte>, p: Piece, sink: Sink) returns (ok: bool)
      requires sink.Valid() && s != [] && p.Flat?
      requires exists pes: bool :: p == PieceAt(config.env, config.mode, s, pes)
      modifies sink
      ensures sink.Valid() && ok == Fits(sink.kind, |old(sink.buf)| + |p.bytes|)
      ensures ok ==> sink.buf == old(sink.buf) + Stored(sink.kind, p.bytes)
    {
      hide Encode, GeneralPiece, ParameterPiece, CharRefs.Reference;
      if [AMP, HASH] <= s {
        var v := ParseStringCharRef(s, config.env.xml11);
        NeverShorter(s, config.env.xml11);
        if config.mode.preserveCharRefs && config.env.xml11 && IsRestricted11(v.value.r) {
          ok := sink.Write(s[..v.value.width]);
        } else {
          ok := sink.WriteRune(v.value.r);
        }
      } else if |p.bytes| == 1 {
        ok := sink.WriteByte(p.bytes[0]);
        assert Stored(sink.kind, p.bytes) == [StoredByte(sink.kind, p.bytes[0])];
      } else {
        ok := sink.Write(p.bytes);
      }
    }

    /** `decodeEntitiesInternal`: the result as a string of its own. */
    method DecodeString(s: seq<Byte>, depth: nat) returns (r: Option<seq<Byte>>)
      modifies this
      ensures var d := DecodeText(config, s, LevelsLeft(depth), old(Now()));
        && r.Some? == d.Finished?
        && (r.Some? ==> r.value == d.out && Now() == d.st)
    {
      hide PieceAt, DecodeText;
      var sink := new Sink(StringSink);
      var ok := DecodeToSink(s, depth, sink);
      r := if ok then Some(sink.buf) else None;
      assert ok ==> [] + sink.buf == sink.buf;
      StringStored(if ok then DecodeText(config, s, LevelsLeft(depth), old(Now())).out else []);
    }

    /** One round of the loop. */
    method DecodePiece(s: seq<Byte>, depth: nat, sink: Sink, ghost whole: Outcome, ghost done: seq<Byte>)
      returns (ok: bool, rest: seq<Byte>, ghost more: seq<Byte>)
      requires sink.Valid() && s != [] && depth <= 40
      requires OnCourse(config, whole, done, s, LevelsLeft(depth), Now()) && |sink.buf| >= |done|
      modifies this, sink
      ensures sink.Valid()
      ensures ok ==>
        && |rest| < |s| && sink.buf == old(sink.buf) + Stored(sink.kind, more)
        && OnCourse(config, whole, done + more, rest, LevelsLeft(depth), Now())
      ensures !ok && whole.Finished? ==> !Fits(sink.kind, |old(sink.buf)| - |done| + |whole.out|)
      decreases LevelsLeft(depth), 0
    {
      hide PieceAt, DecodeText, Charged, Within;
      ok, rest, more := false, s, [];
      var p := PieceAt(config.env, config.mode, s, hasPERefs);
      match p {
        case Malformed =>
          MalformedStep(config, whole, done, s, LevelsLeft(depth), Now());
        case Flat(bytes, width, charge, pe) =>
          FlatStep(config, whole, done, s, LevelsLeft(depth), Now());
          hasPERefs := hasPERefs || pe;
          ok := EntityCheck(charge);
          if ok {
            Longer(config, whole, done + bytes, s[width..], LevelsLeft(depth), Now());
            ok := WriteFlat(s, p, sink);
          }
          rest, more := s[width..], bytes;
        case Inner(body, width, charge, pe, ent) =>
          InnerStep(config, whole, done, s, LevelsLeft(depth), Now());
          hasPERefs := hasPERefs || pe;
          ok := EntityCheck(charge);
          if ok {
            ok, more := DecodeBody(body, ent, depth, sink, whole, done, s[width..]);
          }
          rest := s[width..];
      }
    }

    /** The replacement text of an entity, and the charge for what it came to. */
    method DecodeBody(
      body: seq<Byte>, ent: Entity, depth: nat, sink: Sink, ghost whole: Outcome, ghost done: seq<Byte>, ghost rest: seq<Byte>)
      returns (ok: bool, ghost more: seq<Byte>)
      requires sink.Valid() && depth <= 40 && |sink.buf| >= |done|
      requires
        var inner := DecodeText(config, body, LevelsLeft(depth) - 1, Now());
        if inner.Failed? then whole.Failed?
        else
          var paid := Charged(config.budget, inner.st.size, Due(Some(ent), |inner.out|));
          if paid.None? then whole.Failed?
          else OnCourse(config, whole, done + inner.out, rest, LevelsLeft(depth), inner.st.(size := paid.value))
      modifies this, sink
      ensures sink.Valid()
      ensures ok ==>
        && sink.buf == old(sink.buf) + Stored(sink.kind, more)
        && OnCourse(config, whole, done + more, rest, LevelsLeft(depth), Now())
      ensures !ok && whole.Finished? ==> !Fits(sink.kind, |old(sink.buf)| - |done| + |whole.out|)
      decreases LevelsLeft(depth), 0, 0
    {
      hide PieceAt, DecodeText, Charged, Within;
      ghost var inner := DecodeText(config, body, LevelsLeft(depth + 1), Now());
      more := if inner.Finished? then inner.out else [];
      if inner.Finished? && Charged(config.budget, inner.st.size, Due(Some(ent), |inner.out|)).Some? {
        Longer(config, whole, done + inner.out, rest, LevelsLeft(depth),
          inner.st.(size := Charged(config.budget, inner.st.size, Due(Some(ent), |inner.out|)).value));
      }
      var before := |sink.buf|;
      ok := DecodeToSink(body, depth + 1, sink);
      if ok {
        ok := EntityCheck(Due(Some(ent), |sink.buf| - before));
      }
    }
  }

  lemma NoLevels(c: Config, s: seq<Byte>, st: State)
    ensures DecodeText(c, s, 0, st).Failed?
  {
  }

  lemma NothingLeft(c: Config, whole: Outcome, done: seq<Byte>, fuel: nat, st: State)
    requires OnCourse(c, whole, done, [], fuel, st) && fuel > 0
    ensures whole == Finished(done, st)
  {
    assert done + [] == done;
  }

  lemma MalformedStep(c: Config, whole: Outcome, done: seq<Byte>, s: seq<Byte>, fuel: nat, st: State)
    requires OnCourse(c, whole, done, s, fuel, st) && s != [] && PieceAt(c.env, c.mode, s, st.pes).Malformed?
    ensures whole.Failed?
  {
    hide PieceAt;
  }
}
