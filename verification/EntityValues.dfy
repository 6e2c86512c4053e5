/** What the literal value of an entity declaration stands for, against what decoding makes of it. */
module EntityValues {
  import opened Utf8
  import opened CharRefs
  import opened EntityText
  import opened EntityExpansion

  /** In entity values parameter entities are replaced, and general entities are not. */
  function InLiteral(keep: bool): Mode {
    Mode(false, true, keep)
  }

  /** Ill-formed, or the replacement text, and whether a parameter entity has been referenced by its end. */
  datatype Literal = Wrong | Right(text: seq<Byte>, seen: bool)

  function Behind(bytes: seq<Byte>, rest: Literal): Literal {
    if rest.Wrong? then Wrong else Right(bytes + rest.text, rest.seen)
  }

  function Then(inner: Literal, rest: Literal): Literal {
    if inner.Wrong? then Wrong else Behind(inner.text, rest)
  }

  /**
   * Section 4.5 of XML 1.0: character references and parameter-entity references are replaced, references to general
   * entities stay. With `keep`, references to control characters of XML 1.1 stay as well, and internal parameter
   * entities contribute the text that keeps theirs. An undeclared parameter entity is an error unless a declaration may
   * have been missed. `fuel` is the number of levels left.
   */
  ghost function ValueOf(env: Env, s: seq<Byte>, fuel: nat, seen: bool, keep: bool): Literal
    decreases fuel, |s|
  {
    if fuel == 0 then Wrong
    else if s == [] then Right([], seen)
    else if ['&' as int, '#' as int] <= s then
      var v := CharRefs.Reference(s, env.xml11);
      if v.None? then Wrong
      else
        NeverShorter(s, env.xml11);
        var r := v.value.r;
        var control := (0 < r < 0x20 || 0x7F <= r < 0xA0) && r != 9 && r != 10 && r != 13 && r != 0x85;
        Behind(
          if keep && env.xml11 && control then s[..v.value.width] else Encode(r),
          ValueOf(env, s[v.value.width..], fuel, seen, keep))
    else if s[0] != '%' as int then Behind([s[0]], ValueOf(env, s[1..], fuel, seen, keep))
    else
      var named := NamedAt(s);
      if named.None? then Wrong
      else
        var name, width := named.value, |named.value| + 2;
        if name !in env.parameter then
          if env.standalone || (!env.hasExternalSubset && !seen) then Wrong
          else ValueOf(env, s[width..], fuel, true, keep)
        else
          var ent := env.parameter[name];
          match ent.kind
          case InternalParameter =>
            var text := if keep && ent.replacement != [] then ent.replacement else ent.content;
            var inner := ValueOf(env, text, fuel - 1, true, keep);
            if inner.Wrong? then Wrong else Then(inner, ValueOf(env, s[width..], fuel, inner.seen, keep))
          case ExternalParameter =>
            var inner := ValueOf(env, ent.content, fuel - 1, true, keep);
            if inner.Wrong? then Wrong else Then(inner, ValueOf(env, s[width..], fuel, inner.seen, keep))
          case _ => Wrong
  }

  /** The value, one piece on. */
  lemma ValueOne(env: Env, s: seq<Byte>, fuel: nat, seen: bool, keep: bool)
    requires s != [] && fuel > 0
    ensures var p := PieceAt(env, InLiteral(keep), s, seen);
      match p
      case Malformed => ValueOf(env, s, fuel, seen, keep) == Wrong || Bears(env, InLiteral(keep), s, RefusedName)
      case Flat(bytes, width, _, pe) =>
        ValueOf(env, s, fuel, seen, keep) == Behind(bytes, ValueOf(env, s[width..], fuel, seen || pe, keep))
      case Inner(body, width, _, pe, _) =>
        var inner := ValueOf(env, body, fuel - 1, seen || pe, keep);
        ValueOf(env, s, fuel, seen, keep) ==
          if inner.Wrong? then Wrong else Then(inner, ValueOf(env, s[width..], fuel, inner.seen, keep))
  {
    hide CharRefs.Reference, ReferenceAt, NamedAt, Refused, Encode;
    RefusedExactly(s, env.maxNameLength);
    if [AMP, HASH] <= s {
      if CharRefs.Reference(s, env.xml11).Some? {
        Restricted11Exactly(CharRefs.Reference(s, env.xml11).value.r);
      }
    } else if s[0] == PERCENT && NamedAt(s).Some? {
      NothingPut(ValueOf(env, s[|NamedAt(s).value| + 2..], fuel, true, keep));
    }
  }

  lemma NothingPut(rest: Literal)
    ensures Behind([], rest) == rest
  {
    if rest.Right? {
      assert [] + rest.text == rest.text;
    }
  }

  lemma ValueAtTheEnd(env: Env, s: seq<Byte>, fuel: nat, seen: bool, keep: bool)
    ensures fuel == 0 ==> ValueOf(env, s, fuel, seen, keep) == Wrong && Expand(env, InLiteral(keep), s, fuel, seen) == Fail
    ensures fuel > 0 && s == [] ==>
      && ValueOf(env, s, fuel, seen, keep) == Right([], seen)
      && Expand(env, InLiteral(keep), s, fuel, seen) == Done([], 0, seen)
  {
  }

  /**
   * Decoding an entity value yields what section 4.5 makes of it, and succeeds exactly when there is such a thing and no
   * chain of references leads to a name that is refused.
   */
  lemma {:induction false} ValueExactly(env: Env, s: seq<Byte>, fuel: nat, seen: bool, keep: bool)
    ensures var e := Expand(env, InLiteral(keep), s, fuel, seen);
      && (e.Done? <==> ValueOf(env, s, fuel, seen, keep).Right? && !Reaches(env, InLiteral(keep), s, RefusedName))
      && (e.Done? ==> ValueOf(env, s, fuel, seen, keep) == Right(e.out, e.pes))
    decreases fuel, |s|
  {
    hide PieceAt, ValueOf, Reaches, Bears;
    ValueAtTheEnd(env, s, fuel, seen, keep);
    if fuel > 0 && s == [] {
      ReachesNone(env, InLiteral(keep), RefusedName);
    } else if fuel > 0 {
      var mode := InLiteral(keep);
      var p := PieceAt(env, mode, s, seen);
      ValueOne(env, s, fuel, seen, keep);
      if p.Malformed? {
        if Bears(env, mode, s, RefusedName) {
          assert LeadsTo(env, mode, s, RefusedName, [s]);
          RefusedHere(env, mode, s);
        }
      } else {
        NotRefused(env, s, seen, keep);
        if !seen {
          LenientPiece(env, mode, s);
        }
        ReachesOne(env, mode, s, RefusedName);
        if p.Flat? {
          ValueExactly(env, s[p.width..], fuel, seen || p.pe, keep);
        } else {
          ValueExactly(env, p.body, fuel - 1, seen || p.pe, keep);
          var inner := Expand(env, mode, p.body, fuel - 1, seen || p.pe);
          if inner.Done? {
            ValueExactly(env, s[p.width..], fuel, inner.pes, keep);
          }
        }
      }
    }
  }

  lemma RefusedHere(env: Env, mode: Mode, s: seq<Byte>)
    requires LeadsTo(env, mode, s, RefusedName, [s])
    ensures Reaches(env, mode, s, RefusedName)
  {
  }

  lemma NotRefused(env: Env, s: seq<Byte>, seen: bool, keep: bool)
    requires s != [] && !PieceAt(env, InLiteral(keep), s, seen).Malformed?
    ensures !Bears(env, InLiteral(keep), s, RefusedName)
  {
    hide ReferenceAt, NamedAt, Refused;
    RefusedExactly(s, env.maxNameLength);
  }
}
