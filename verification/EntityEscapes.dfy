/** The five escapes of section 4.6 of XML 1.0: text that is written with them is decoded to what it was. */
module EntityEscapes {
  import opened Utf8
  import opened Names
  import opened CharRefs
  import opened EntityText
  import opened EntityExpansion
  import opened EntityAccounting

  /** The reference that section 4.6 has for a byte of markup; any other byte stands for itself. */
  function Escape(b: Byte): seq<Byte> {
    if b == '<' as int then ['&' as int, 'l' as int, 't' as int, ';' as int]
    else if b == '>' as int then ['&' as int, 'g' as int, 't' as int, ';' as int]
    else if b == '&' as int then ['&' as int, 'a' as int, 'm' as int, 'p' as int, ';' as int]
    else if b == '\'' as int then ['&' as int, 'a' as int, 'p' as int, 'o' as int, 's' as int, ';' as int]
    else if b == '"' as int then ['&' as int, 'q' as int, 'u' as int, 'o' as int, 't' as int, ';' as int]
    else [b]
  }

  function EscapeAll(t: seq<Byte>): seq<Byte> {
    if t == [] then [] else Escape(t[0]) + EscapeAll(t[1..])
  }

  predicate IsLetter(b: Byte) {
    'a' as int <= b <= 'z' as int
  }

  lemma {:induction false} LettersEncoded(name: Name)
    requires forall k :: 0 <= k < |name| ==> IsLetter(name[k])
    ensures AreNameChars(name) && AreScalars(name) && EncodeAll(name) == name
  {
    if name != [] {
      LettersEncoded(name[1..]);
      assert name == [name[0]] + name[1..];
    }
  }

  lemma LettersName(name: Name)
    requires name != [] && forall k :: 0 <= k < |name| ==> IsLetter(name[k])
    ensures IsName(name) && !HoldsReplacement(name)
  {
    LettersEncoded(name);
    assert SpelledBy(name, name);
    forall runes: seq<int> | SpelledBy(runes, name) ensures RUNE_ERROR !in runes {
      EncodedOnce(runes, name);
    }
  }

  const LT: Name := ['l' as int, 't' as int]
  const GT: Name := ['g' as int, 't' as int]
  const AMPERSAND: Name := ['a' as int, 'm' as int, 'p' as int]
  const APOSTROPHE: Name := ['a' as int, 'p' as int, 'o' as int, 's' as int]
  const QUOTE: Name := ['q' as int, 'u' as int, 'o' as int, 't' as int]

  /** The names of the five. */
  const ESCAPES: set<Name> := {LT, GT, AMPERSAND, APOSTROPHE, QUOTE}

  lemma ShortNamesSpelled()
    ensures Ascii("lt") == LT && Ascii("gt") == GT && Ascii("amp") == AMPERSAND
  {
    assert Ascii("p") == ['p' as int] && Ascii("mp") == ['m' as int, 'p' as int];
  }

  lemma AposSpelled()
    ensures Ascii("apos") == APOSTROPHE
  {
    assert Ascii("os") == ['o' as int, 's' as int];
    assert Ascii("pos") == ['p' as int, 'o' as int, 's' as int];
  }

  lemma QuotSpelled()
    ensures Ascii("quot") == QUOTE
  {
    assert Ascii("ot") == ['o' as int, 't' as int];
    assert Ascii("uot") == ['u' as int, 'o' as int, 't' as int];
  }

  /** What each of the five names stands for; no other name stands for anything. */
  lemma EscapesResolved(name: Name)
    ensures Resolve(name).Some? <==> name in ESCAPES
    ensures Resolve(name).Some? ==>
      Resolve(name).value.content == [
        if name == LT then '<' as int
        else if name == GT then '>' as int
        else if name == AMPERSAND then '&' as int
        else if name == APOSTROPHE then '\'' as int
        else '"' as int]
  {
    hide Ascii;
    ShortNamesSpelled();
    AposSpelled();
    QuotSpelled();
  }

  /** Text that may stand where the five are replaced: no parameter entities, and names of four letters are read. */
  predicate ReadsEscapes(env: Env, mode: Mode) {
    mode.refs && !mode.peRefs && (env.maxNameLength == 0 || env.maxNameLength >= 4)
  }

  lemma EscapedName(env: Env, mode: Mode, name: Name, rest: seq<Byte>, pes: bool)
    requires ReadsEscapes(env, mode) && name in ESCAPES
    ensures var p := PieceAt(env, mode, ['&' as int] + name + [';' as int] + rest, pes);
      p.Flat? && Resolve(name).Some? && p.bytes == Resolve(name).value.content && p.width == |name| + 2 && !p.pe
  {
    hide ReferenceAt, Resolve, IsName, HoldsReplacement;
    var s := ['&' as int] + name + [';' as int] + rest;
    LettersName(name);
    assert [s[0]] + name + [SEMI] <= s;
    ReferenceAtExact(s, env.maxNameLength, name);
    EscapesResolved(name);
    assert s[1] == name[0];
  }

  lemma EscapedPiece(env: Env, mode: Mode, b: Byte, rest: seq<Byte>, pes: bool)
    requires ReadsEscapes(env, mode)
    ensures var p := PieceAt(env, mode, Escape(b) + rest, pes);
      p.Flat? && p.bytes == [b] && p.width == |Escape(b)| && !p.pe
  {
    hide PieceAt, Resolve;
    if |Escape(b)| > 1 {
      var name :=
        if b == '<' as int then LT
        else if b == '>' as int then GT
        else if b == '&' as int then AMPERSAND
        else if b == '\'' as int then APOSTROPHE
        else QUOTE;
      assert Escape(b) == ['&' as int] + name + [';' as int];
      EscapesResolved(name);
      EscapedName(env, mode, name, rest, pes);
    } else {
      PlainPiece(env, mode, b, rest, pes);
    }
  }

  lemma PlainPiece(env: Env, mode: Mode, b: Byte, rest: seq<Byte>, pes: bool)
    requires ReadsEscapes(env, mode) && b != '&' as int
    ensures PieceAt(env, mode, [b] + rest, pes) == Flat([b], 1, Free, false)
  {
    assert ([b] + rest)[0] == b && [AMP, HASH][0] == AMP;
  }

  /** Any text, written with escapes, expands to itself. */
  lemma {:induction false} EscapedExpands(env: Env, mode: Mode, t: seq<Byte>, fuel: nat, pes: bool)
    requires ReadsEscapes(env, mode) && fuel > 0
    ensures var e := Expand(env, mode, EscapeAll(t), fuel, pes); e.Done? && e.out == t
    decreases |t|
  {
    hide PieceAt, Escape;
    if t != [] {
      var s := EscapeAll(t);
      SomeBytes(t[0]);
      EscapedPiece(env, mode, t[0], EscapeAll(t[1..]), pes);
      EscapedExpands(env, mode, t[1..], fuel, pes);
      assert s[|Escape(t[0])|..] == EscapeAll(t[1..]);
      assert t == [t[0]] + t[1..];
    }
  }

  lemma SomeBytes(b: Byte)
    ensures Escape(b) != []
  {
  }

  /** And so it decodes, as long as the budget lasts; without accounting it always does. */
  lemma EscapedDecodes(c: Config, t: seq<Byte>, fuel: nat, st: State)
    requires ReadsEscapes(c.env, c.mode) && fuel > 0 && Costed(c.env) && 0 <= st.size <= MAX_INT64
    ensures DecodeText(c, EscapeAll(t), fuel, st).Finished? ==> DecodeText(c, EscapeAll(t), fuel, st).out == t
    ensures !c.budget.account ==> DecodeText(c, EscapeAll(t), fuel, st).Finished?
  {
    hide DecodeText, Expand;
    DecodeExact(c, EscapeAll(t), fuel, st);
    EscapedExpands(c.env, c.mode, t, fuel, st.pes);
  }
}
