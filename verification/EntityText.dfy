/** Entities, names, and what stands at the front of text to be decoded. */
module EntityText {
  import opened Utf8
  import opened CharRefs
  import opened Names
  import opened Wrappers

  const LESS := '<' as int
  const PERCENT := '%' as int
  const SPACE := 0x20

  /** Tabs, line feeds and carriage returns. */
  predicate IsBreak(r: int) {
    r == 0xD || r == 0xA || r == 0x9
  }

  datatype Kind =
    Predefined | InternalGeneral | ExternalParsed | ExternalUnparsed | InternalParameter | ExternalParameter

  /** `replacement` keeps the spelling of XML 1.1 restricted characters; empty when it does not differ. */
  datatype Entity = Entity(
    name: Name, kind: Kind, content: seq<Byte>, replacement: seq<Byte>, checked: bool, expandedSize: int)

  /** The declarations in force and the state of the parser that lookups depend on. */
  datatype Env = Env(
    general: map<Name, Entity>, parameter: map<Name, Entity>,
    standalone: bool, hasExternalSubset: bool, hasExternalPERef: bool, validating: bool,
    inAttribute: bool, xml11: bool, maxNameLength: nat)

  /** Which references are replaced, and whether restricted characters stay references. */
  datatype Mode = Mode(refs: bool, peRefs: bool, preserveCharRefs: bool)

  function Predef(name: Name, content: Byte): Entity {
    Entity(name, Predefined, [content], [], false, 0)
  }

  function Ascii(s: string): (r: seq<Byte>)
    ensures |r| == |s|
  {
    if s == "" then [] else [s[0] as int] + Ascii(s[1..])
  }

  /** `resolvePredefinedEntity` */
  function Resolve(name: Name): (r: Option<Entity>)
    ensures r.Some? ==> |r.value.content| == 1 && r.value.kind == Predefined && !r.value.checked
  {
    if name == Ascii("lt") then Some(Predef(name, LESS))
    else if name == Ascii("gt") then Some(Predef(name, '>' as int))
    else if name == Ascii("amp") then Some(Predef(name, AMP))
    else if name == Ascii("apos") then Some(Predef(name, '\'' as int))
    else if name == Ascii("quot") then Some(Predef(name, '"' as int))
    else None
  }

  // ----- references by name -----

  /** The name and the width of `&name;` or `%name;` at the front of `s`. */
  datatype Reference = NoReference | Reference(name: Name, width: nat)

  function ReferenceAt(s: seq<Byte>, maxNameLength: nat): (r: Reference)
    requires s != []
    ensures r.Reference? ==> 2 < r.width <= |s| && |r.name| + 2 == r.width
  {
    var n := NameEnd(s, 1, maxNameLength);
    if n.None? || s[n.value] != SEMI then NoReference else Reference(s[1..n.value], n.value + 1)
  }

  /** The name between the first byte and the first semicolon, if it is one of production 5. */
  ghost function NamedAt(s: seq<Byte>): (name: Option<Name>)
    requires s != []
    ensures name.Some? ==> |name.value| + 2 <= |s|
  {
    var n := SemiAt(s[1..]);
    if n < |s| - 1 && IsName(s[1..1 + n]) then Some(s[1..1 + n]) else None
  }

  /** The scanner does not read the name in references. */
  ghost predicate Refused(name: Name, maxNameLength: nat) {
    HoldsReplacement(name) || (maxNameLength > 0 && |name| > maxNameLength)
  }

  lemma NamedAtExact(s: seq<Byte>, name: Name)
    requires s != []
    ensures NamedAt(s) == Some(name) <==> [s[0]] + name + [SEMI] <= s && IsName(name)
  {
    hide IsName;
    var n := SemiAt(s[1..]);
    if [s[0]] + name + [SEMI] <= s && IsName(name) {
      var t := [s[0]] + name + [SEMI];
      NameBytes(name, SEMI);
      assert forall k :: 0 <= k < |name| ==> s[1..][k] == t[1 + k] == name[k];
      assert s[1..][|name|] == t[1 + |name|] == SEMI;
      assert n == |name|;
      assert s[1..1 + n] == t[1..1 + n] == name;
    }
    if NamedAt(s) == Some(name) {
      assert s[1..][n] == SEMI;
      assert s[..n + 2] == [s[0]] + name + [SEMI];
    }
  }

  lemma SemiEndsName(s: seq<Byte>, k: nat)
    requires k < |s| && s[k] == SEMI
    ensures EndsName(s, k)
  {
  }

  /** A reference is read exactly where production 68 or 69 spells one whose name is not refused. */
  lemma ReferenceAtExact(s: seq<Byte>, maxNameLength: nat, name: Name)
    requires s != []
    ensures ReferenceAt(s, maxNameLength) == Reference(name, |name| + 2) <==>
      [s[0]] + name + [SEMI] <= s && IsName(name) && !Refused(name, maxNameLength)
  {
    hide NameEnd, IsName, HoldsReplacement, EndsName;
    NameEndExact(s, 1, maxNameLength, name);
    var t := [s[0]] + name + [SEMI];
    if t <= s {
      assert s[1..1 + |name|] == t[1..1 + |name|] == name;
      assert s[1 + |name|] == t[1 + |name|];
      SemiEndsName(s, 1 + |name|);
    }
    if ReferenceAt(s, maxNameLength) == Reference(name, |name| + 2) {
      assert s[..|name| + 2] == t;
    }
  }

  /** Of the names that stand there, exactly the refused ones are not read. */
  lemma RefusedExactly(s: seq<Byte>, maxNameLength: nat)
    requires s != []
    ensures ReferenceAt(s, maxNameLength) ==
      if NamedAt(s).Some? && !Refused(NamedAt(s).value, maxNameLength) then
        Reference(NamedAt(s).value, |NamedAt(s).value| + 2)
      else NoReference
  {
    hide ReferenceAt, NamedAt, Refused, IsName;
    var r := ReferenceAt(s, maxNameLength);
    if r.Reference? {
      ReferenceAtExact(s, maxNameLength, r.name);
      NamedAtExact(s, r.name);
    }
    if NamedAt(s).Some? {
      ReferenceAtExact(s, maxNameLength, NamedAt(s).value);
      NamedAtExact(s, NamedAt(s).value);
    }
  }

  /** The letter a and the replacement character */
  const MARKED_NAME: seq<Byte> := ['a' as int, 0xEF, 0xBF, 0xBD]

  /** A name of production 5 that no reference in stored text can have. */
  lemma ReplacementRefused(maxNameLength: nat)
    ensures IsName(MARKED_NAME) && HoldsReplacement(MARKED_NAME)
    ensures ReferenceAt([AMP] + MARKED_NAME + [SEMI], maxNameLength) == NoReference
  {
    hide ReferenceAt;
    var runes := ['a' as int, RUNE_ERROR];
    assert runes[1..][1..] == [];
    assert EncodeAll(runes[1..]) == Encode(RUNE_ERROR) + [];
    assert EncodeAll(runes) == MARKED_NAME;
    assert SpelledBy(runes, MARKED_NAME) && RUNE_ERROR in runes;
    var s := [AMP] + MARKED_NAME + [SEMI];
    NamedAtExact(s, MARKED_NAME);
    RefusedExactly(s, maxNameLength);
  }

  /** Of the names the document may declare, stored text can refer to exactly those without U+FFFD. */
  lemma ReferableExactly(name: Name, maxNameLength: nat)
    requires DocumentNameEnd(name, 0, maxNameLength) == Some(|name|)
    ensures ReferenceAt([AMP] + name + [SEMI], maxNameLength) == Reference(name, |name| + 2) <==> !HoldsReplacement(name)
  {
    hide ReferenceAt, DocumentNameEnd, IsName, HoldsReplacement;
    assert name[0..|name|] == name;
    DocumentNameExact(name, 0, maxNameLength, name);
    ReferenceAtExact([AMP] + name + [SEMI], maxNameLength, name);
  }

  // ----- pieces -----

  /** What a piece is charged for: nothing, or an entity (none if undeclared) and a number of bytes. */
  datatype Charge = Free | Due(ent: Option<Entity>, n: nat)

  /**
   * The front of the text: ill-formed, or bytes to write, or the replacement text `body` of `ent` to decode. `pe` tells
   * that a parameter entity was referenced.
   */
  datatype Piece =
    | Malformed
    | Flat(bytes: seq<Byte>, width: nat, charge: Charge, pe: bool)
    | Inner(body: seq<Byte>, width: nat, charge: Charge, pe: bool, ent: Entity)

  /** No declaration can have been missed, so an undeclared entity is an error. */
  predicate AllVisible(env: Env, hasPERefs: bool) {
    env.standalone || (!env.hasExternalSubset && !hasPERefs)
  }

  predicate ReportsUndeclared(env: Env) {
    env.validating && !env.hasExternalSubset && !env.hasExternalPERef
  }

  function GeneralPiece(env: Env, s: seq<Byte>, hasPERefs: bool): (p: Piece)
    requires s != []
    ensures !p.Malformed? ==> 0 < p.width <= |s| && !p.pe
  {
    var r := ReferenceAt(s, env.maxNameLength);
    if r.NoReference? then Malformed
    else
      var predef := Resolve(r.name);
      if predef.Some? then Flat(predef.value.content, r.width, Due(predef, 0), false)
      else if r.name !in env.general then
        if AllVisible(env, hasPERefs) || ReportsUndeclared(env) then Malformed
        else Flat(s[..r.width], r.width, Free, false)
      else DeclaredPiece(env, env.general[r.name], r.width)
  }

  function DeclaredPiece(env: Env, ent: Entity, width: nat): (p: Piece)
    ensures !p.Malformed? ==> p.width == width && !p.pe
  {
    match ent.kind
    case ExternalUnparsed => Malformed
    case InternalParameter => Malformed
    case ExternalParameter => Malformed
    case Predefined => if ent.content == [] then Malformed else Flat(ent.content, width, Due(Some(ent), 0), false)
    case _ =>
      if env.inAttribute && (ent.kind == ExternalParsed || LESS in ent.content) then Malformed
      else if ent.content == [] then Flat(ent.name, width, Due(Some(ent), 0), false)
      else Inner(ent.content, width, Due(Some(ent), 0), false, ent)
  }

  function ParameterPiece(env: Env, mode: Mode, s: seq<Byte>, hasPERefs: bool): (p: Piece)
    requires s != []
    ensures !p.Malformed? ==> 0 < p.width <= |s| && p.pe
  {
    var r := ReferenceAt(s, env.maxNameLength);
    if r.NoReference? then Malformed
    else if r.name !in env.parameter then
      if AllVisible(env, hasPERefs) then Malformed else Flat([], r.width, Due(None, r.width), true)
    else
      var ent := env.parameter[r.name];
      if ent.kind != InternalParameter && ent.kind != ExternalParameter then Malformed
      else Inner(PEText(ent, mode), r.width, Due(Some(ent), r.width), true, ent)
  }

  /** `parameterEntityReplacement` and `parameterEntityReplacementForReparse` */
  function PEText(ent: Entity, mode: Mode): seq<Byte> {
    if mode.preserveCharRefs && ent.kind == InternalParameter && ent.replacement != [] then ent.replacement
    else ent.content
  }

  predicate IsRestricted11(r: int) {
    0x1 <= r <= 0x8 || r == 0xB || r == 0xC || 0xE <= r <= 0x1F || 0x7F <= r <= 0x84 || 0x86 <= r <= 0x9F
  }

  /** The restricted characters of XML 1.1 are its control characters but for tab, the line ends and NEL. */
  lemma Restricted11Exactly(r: int)
    ensures IsRestricted11(r) <==>
      (0 < r < 0x20 || 0x7F <= r < 0xA0) && r != 9 && r != 10 && r != 13 && r != 0x85
  {
  }

  function CharRefPiece(env: Env, mode: Mode, s: seq<Byte>): (p: Piece)
    ensures !p.Malformed? ==> 0 < p.width <= |s| && !p.pe && p.Flat? && |p.bytes| <= p.width && p.charge == Free
  {
    var v := CharRefs.Reference(s, env.xml11);
    if v.None? then Malformed
    else
      NeverShorter(s, env.xml11);
      var keep := mode.preserveCharRefs && env.xml11 && IsRestricted11(v.value.r);
      Flat(if keep then s[..v.value.width] else Encode(v.value.r), v.value.width, Free, false)
  }

  /** The branches of the decoding loop. */
  function PieceAt(env: Env, mode: Mode, s: seq<Byte>, hasPERefs: bool): (p: Piece)
    requires s != []
    ensures !p.Malformed? ==> 0 < p.width <= |s| && (p.pe ==> mode.peRefs)
  {
    if [AMP, HASH] <= s then CharRefPiece(env, mode, s)
    else if s[0] == AMP && mode.refs then GeneralPiece(env, s, hasPERefs)
    else if s[0] == PERCENT && mode.peRefs then ParameterPiece(env, mode, s, hasPERefs)
    else Flat([s[0]], 1, Free, false)
  }

  /** Having seen a parameter-entity reference makes lookups lenient: nothing that was read is read differently. */
  lemma LenientPiece(env: Env, mode: Mode, s: seq<Byte>)
    requires s != [] && !PieceAt(env, mode, s, false).Malformed?
    ensures PieceAt(env, mode, s, true) == PieceAt(env, mode, s, false)
  {
  }
}
