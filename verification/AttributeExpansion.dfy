/** Entity references in attribute values: what section 3.3.3 of XML 1.0 makes of them, against what is streamed. */
module AttributeExpansion {
  import opened Utf8
  import opened CharRefs
  import opened EntityText
  import opened Names
  import opened EntityExpansion
  import opened EntityAccounting
  import opened EntityDecoder
  import opened AttributeNormalization
  import opened AttributeValues
  import opened Wrappers

  /** In attribute values general entities are replaced; there are no parameter entities. */
  const IN_VALUE := Mode(true, false, false)

  /** Every entity is found under its own name. */
  ghost predicate Keyed(env: Env) {
    forall n :: n in env.general ==> env.general[n].name == n
  }

  // ----- section 3.3.3 -----

  function Before(bytes: seq<Byte>, rest: Option<seq<Byte>>): Option<seq<Byte>> {
    if rest.None? then None else Some(bytes + rest.value)
  }

  /**
   * What section 3.3.3 makes of replacement text: white space becomes spaces, a character reference the character
   * itself, a reference by a name of production 5 what is made in turn of its replacement text. References to undeclared
   * entities that are let pass stay as they are. `fuel` is the number of levels left.
   */
  ghost function Meaning(env: Env, s: seq<Byte>, fuel: nat, pes: bool): Option<seq<Byte>>
    decreases fuel, |s|
  {
    if fuel == 0 then None
    else if s == [] then Some([])
    else if [AMP, HASH] <= s then
      var v := CharRefs.Reference(s, env.xml11);
      if v.None? then None
      else
        NeverShorter(s, env.xml11);
        Before(Encode(v.value.r), Meaning(env, s[v.value.width..], fuel, pes))
    else if s[0] != AMP then
      Before([if s[0] == 0x9 || s[0] == 0xA || s[0] == 0xD then 0x20 else s[0]], Meaning(env, s[1..], fuel, pes))
    else
      var named := NamedAt(s);
      if named.None? then None
      else
        var name, width := named.value, |named.value| + 2;
        var rest := Meaning(env, s[width..], fuel, pes);
        var predef := Resolve(name);
        if predef.Some? then Before(predef.value.content, rest)
        else if name !in env.general then
          if env.standalone || (!env.hasExternalSubset && (!pes || (env.validating && !env.hasExternalPERef))) then None
          else Before(s[..width], rest)
        else
          var ent := env.general[name];
          match ent.kind
          case Predefined => if ent.content == [] then None else Before(Stored(AttrSink(0), ent.content), rest)
          case InternalGeneral =>
            if env.inAttribute && LESS in ent.content then None
            else if ent.content == [] then rest
            else Joined(Meaning(env, ent.content, fuel - 1, pes), rest)
          case ExternalParsed =>
            if env.inAttribute then None
            else if ent.content == [] then rest
            else Joined(Meaning(env, ent.content, fuel - 1, pes), rest)
          case _ => None
  }

  function Joined(inner: Option<seq<Byte>>, rest: Option<seq<Byte>>): Option<seq<Byte>> {
    if inner.None? then None else Before(inner.value, rest)
  }

  /** What a piece means that is written as it stands. */
  function MeaningOf(env: Env, s: seq<Byte>, p: Piece): seq<Byte>
    requires s != [] && p.Flat?
  {
    if [AMP, HASH] <= s then p.bytes
    else if s[0] == AMP && NamesEmpty(env, s) then []
    else Stored(AttrSink(0), p.bytes)
  }

  /** The meaning, one piece on. */
  lemma MeaningOne(env: Env, s: seq<Byte>, fuel: nat, pes: bool)
    requires s != [] && fuel > 0
    ensures var p := PieceAt(env, IN_VALUE, s, pes);
      match p
      case Malformed => Meaning(env, s, fuel, pes) == None || Bears(env, IN_VALUE, s, RefusedName)
      case Flat(bytes, width, _, pe) =>
        !pe && Meaning(env, s, fuel, pes) == Before(MeaningOf(env, s, p), Meaning(env, s[width..], fuel, pes))
      case Inner(body, width, _, pe, _) =>
        !pe && Meaning(env, s, fuel, pes) == Joined(Meaning(env, body, fuel - 1, pes), Meaning(env, s[width..], fuel, pes))
  {
    hide CharRefs.Reference, ReferenceAt, NamedAt, Refused, Resolve, Encode, Stored;
    RefusedExactly(s, env.maxNameLength);
    if s[0] == AMP && !([AMP, HASH] <= s) {
      var r := ReferenceAt(s, env.maxNameLength);
      if r.Reference? {
        NameHasNoBreak(s, env.maxNameLength);
        PlainStored(s[..r.width]);
        PredefStored(r.name);
        if Meaning(env, s[r.width..], fuel, pes).Some? {
          NothingBefore(Meaning(env, s[r.width..], fuel, pes).value);
        }
      }
    } else if s[0] != AMP {
      OneStored(s[0]);
    }
  }

  lemma NothingBefore(s: seq<Byte>)
    ensures [] + s == s
  {
  }

  lemma OneStored(b: Byte)
    ensures Stored(AttrSink(0), [b]) == [if IsBreak(b) then SPACE else b]
  {
  }

  lemma PlainStored(s: seq<Byte>)
    ensures (forall b :: b in s ==> !IsBreak(b)) ==> Stored(AttrSink(0), s) == s
  {
  }

  lemma PredefStored(name: Name)
    ensures Resolve(name).Some? ==> Stored(AttrSink(0), Resolve(name).value.content) == Resolve(name).value.content
  {
    hide Ascii;
  }

  lemma NameHasNoBreak(s: seq<Byte>, maxNameLength: nat)
    requires s != [] && !IsBreak(s[0])
    ensures var r := ReferenceAt(s, maxNameLength);
      r.Reference? ==> forall b :: b in s[..r.width] ==> !IsBreak(b)
  {
    hide ReferenceAt, IsName, Refused, IsNCNameChar;
    var r := ReferenceAt(s, maxNameLength);
    if r.Reference? {
      ReferenceAtExact(s, maxNameLength, r.name);
      SpacesAreNoNames();
      NameBytes(r.name, 0xD);
      NameBytes(r.name, 0xA);
      NameBytes(r.name, 0x9);
      assert s[..r.width] == [s[0]] + r.name + [SEMI];
    }
  }

  lemma SpacesAreNoNames()
    ensures !ContinuesName(SPACE) && !ContinuesName(0xD) && !ContinuesName(0xA) && !ContinuesName(0x9)
  {
  }

  // ----- counting bytes -----

  /** Tabs and line breaks, or all but spaces. */
  datatype Sort = Breaks | Marks

  predicate Belongs(b: Byte, sort: Sort) {
    if sort.Breaks? then IsBreak(b) else b != SPACE
  }

  function Count(s: seq<Byte>, sort: Sort): nat {
    if s == [] then 0
    else Count(s[..|s| - 1], sort) + if Belongs(s[|s| - 1], sort) then 1 else 0
  }

  lemma {:induction false} CountMore(a: seq<Byte>, b: seq<Byte>, sort: Sort)
    ensures Count(a + b, sort) == Count(a, sort) + Count(b, sort)
  {
    hide Belongs;
    if b == [] {
      assert a + b == a;
    } else {
      CountMore(a, b[..|b| - 1], sort);
      assert (a + b)[..|a + b| - 1] == a + b[..|b| - 1];
    }
  }

  lemma {:induction false} CountNone(s: seq<Byte>, sort: Sort)
    requires forall b :: b in s ==> !Belongs(b, sort)
    ensures Count(s, sort) == 0
  {
    if s != [] {
      CountNone(s[..|s| - 1], sort);
    }
  }

  /** Collapsing moves and drops spaces alone. */
  lemma {:induction false} CountCollapsed(s: seq<Byte>, sort: Sort)
    ensures Count(Collapse(s), sort) == Count(s, sort)
  {
    hide Collapse, Owed;
    if s == [] {
      Nothing();
    } else {
      var init, c := s[..|s| - 1], s[|s| - 1];
      assert s == init + [c];
      CountCollapsed(init, sort);
      ByteMore(init, c);
      CountOne(SPACE, sort);
      CountOne(c, sort);
      CountMore(init, [c], sort);
      CountMore(Collapse(init), [], sort);
      CountMore(Collapse(init), [SPACE], sort);
      CountMore(Collapse(init) + (if Owed(init) then [SPACE] else []), [c], sort);
    }
  }

  lemma CountOne(b: Byte, sort: Sort)
    ensures Count([b], sort) == if Belongs(b, sort) then 1 else 0
    ensures Count([], sort) == 0
  {
    assert [b][..0] == [];
  }

  // ----- streamed and meant -----

  /**
   * How what is streamed, `e`, compares to what is meant, `n`: breaks are missing from it when `brk` holds; otherwise it
   * has more in it when `empty` holds, and else it is the same.
   */
  ghost predicate Compare(e: seq<Byte>, n: seq<Byte>, brk: bool, empty: bool) {
    && Count(e, Breaks) <= Count(n, Breaks)
    && (brk <==> Count(e, Breaks) < Count(n, Breaks))
    && (!brk ==> if empty then Count(n, Marks) < Count(e, Marks) else e == n)
  }

  lemma CompareTogether(
    e: seq<Byte>, n: seq<Byte>, brk: bool, empty: bool, e': seq<Byte>, n': seq<Byte>, brk': bool, empty': bool)
    requires Compare(e, n, brk, empty) && Compare(e', n', brk', empty')
    ensures Compare(e + e', n + n', brk || brk', empty || empty')
  {
    hide Count;
    CountMore(e, e', Breaks);
    CountMore(n, n', Breaks);
    CountMore(e, e', Marks);
    CountMore(n, n', Marks);
  }

  lemma CompareSame(s: seq<Byte>)
    ensures Compare(s, s, false, false)
  {
  }

  /** The same, before and after collapsing, exactly when nothing is missing and nothing more. */
  lemma CompareExactly(e: seq<Byte>, n: seq<Byte>, brk: bool, empty: bool, normalize: bool)
    requires Compare(e, n, brk, empty)
    ensures OfType(e, normalize) == OfType(n, normalize) <==> !brk && !empty
  {
    hide Collapse, Count;
    CountCollapsed(e, Breaks);
    CountCollapsed(n, Breaks);
    CountCollapsed(e, Marks);
    CountCollapsed(n, Marks);
  }

  lemma StoredHasNoBreaks(bytes: seq<Byte>)
    ensures Count(Stored(AttrSink(0), bytes), Breaks) == 0
  {
    hide Count;
    var e := Stored(AttrSink(0), bytes);
    forall b | b in e ensures !Belongs(b, Breaks) {
    }
    CountNone(e, Breaks);
  }

  /** One piece that is written as it stands. */
  lemma PieceCompares(env: Env, s: seq<Byte>, pes: bool)
    requires Keyed(env) && s != [] && PieceAt(env, IN_VALUE, s, pes).Flat?
    ensures var p := PieceAt(env, IN_VALUE, s, pes);
      Compare(Stored(AttrSink(0), p.bytes), MeaningOf(env, s, p),
        Bears(env, IN_VALUE, s, BreakReference), Bears(env, IN_VALUE, s, EmptyEntity))
  {
    hide Count, CharRefs.Reference, ReferenceAt, Resolve, Encode, Stored;
    var p := PieceAt(env, IN_VALUE, s, pes);
    StoredHasNoBreaks(p.bytes);
    if [AMP, HASH] <= s {
      NeverShorter(s, env.xml11);
      EncodedCompares(CharRefs.Reference(s, env.xml11).value.r);
    } else if s[0] == AMP && NamesEmpty(env, s) {
      NamedMarks(s, env.maxNameLength);
      CountOne(SPACE, Breaks);
      CountOne(SPACE, Marks);
    }
  }

  lemma EncodedCompares(r: int)
    requires IsScalar(r)
    ensures Compare(Stored(AttrSink(0), Encode(r)), Encode(r), IsBreak(r), false)
  {
    hide Count, Stored;
    StoredHasNoBreaks(Encode(r));
    PlainStored(Encode(r));
    CountOne(r, Breaks);
    if !IsBreak(r) {
      CountNone(Encode(r), Breaks);
    }
  }

  /** A name is more than spaces. */
  lemma NamedMarks(s: seq<Byte>, maxNameLength: nat)
    requires s != [] && ReferenceAt(s, maxNameLength).Reference?
    ensures Count(Stored(AttrSink(0), ReferenceAt(s, maxNameLength).name), Marks) > 0
  {
    hide Count, IsNCNameChar, ReferenceAt, IsName, Refused;
    var name := ReferenceAt(s, maxNameLength).name;
    var e := Stored(AttrSink(0), name);
    ReferenceAtExact(s, maxNameLength, name);
    SpacesAreNoNames();
    NameBytes(name, SPACE);
    NameBytes(name, 0xD);
    NameBytes(name, 0xA);
    NameBytes(name, 0x9);
    assert e[0] == name[0] && name[0] in name;
    assert e == [e[0]] + e[1..];
    CountMore([e[0]], e[1..], Marks);
    CountOne(e[0], Marks);
  }

  /** Nothing about parameter entities changes in attribute values. */
  lemma {:induction false} PesKept(env: Env, s: seq<Byte>, fuel: nat, pes: bool)
    requires Expand(env, IN_VALUE, s, fuel, pes).Done?
    ensures Expand(env, IN_VALUE, s, fuel, pes).pes == pes
    decreases fuel, |s|
  {
    hide PieceAt;
    if s != [] {
      var p := PieceAt(env, IN_VALUE, s, pes);
      if p.Inner? {
        PesKept(env, p.body, fuel - 1, pes);
      }
      PesKept(env, s[p.width..], fuel, pes);
    }
  }

  /** The bytes that are written to an attribute value for replacement text. */
  function Streamed(env: Env, s: seq<Byte>, fuel: nat, pes: bool): Option<seq<Byte>> {
    var e := Expand(env, IN_VALUE, s, fuel, pes);
    if e.Fail? then None else Some(e.out)
  }

  /** What is streamed, one piece on. */
  lemma StreamedOne(env: Env, s: seq<Byte>, fuel: nat, pes: bool)
    requires s != [] && fuel > 0
    ensures var p := PieceAt(env, IN_VALUE, s, pes);
      match p
      case Malformed => Streamed(env, s, fuel, pes) == None
      case Flat(bytes, width, _, _) => Streamed(env, s, fuel, pes) == Before(bytes, Streamed(env, s[width..], fuel, pes))
      case Inner(body, width, _, _, _) =>
        Streamed(env, s, fuel, pes)
          == Joined(Streamed(env, body, fuel - 1, pes), Streamed(env, s[width..], fuel, pes))
  {
    hide PieceAt;
    var p := PieceAt(env, IN_VALUE, s, pes);
    if p.Inner? && Expand(env, IN_VALUE, p.body, fuel - 1, pes).Done? {
      PesKept(env, p.body, fuel - 1, pes);
    }
  }

  lemma AtTheEnd(env: Env, s: seq<Byte>, fuel: nat, pes: bool)
    ensures fuel == 0 ==> Meaning(env, s, fuel, pes) == None && Streamed(env, s, fuel, pes) == None
    ensures fuel > 0 && s == [] ==> Meaning(env, s, fuel, pes) == Some([]) && Streamed(env, s, fuel, pes) == Some([])
  {
  }

  /** What is streamed has a meaning, at the same depth. */
  lemma {:induction false} StreamedMeant(env: Env, s: seq<Byte>, fuel: nat, pes: bool)
    requires Streamed(env, s, fuel, pes).Some?
    ensures Meaning(env, s, fuel, pes).Some?
    decreases fuel, |s|
  {
    hide PieceAt, MeaningOf, Meaning, Streamed;
    AtTheEnd(env, s, fuel, pes);
    if s != [] {
      var p := PieceAt(env, IN_VALUE, s, pes);
      MeaningOne(env, s, fuel, pes);
      StreamedOne(env, s, fuel, pes);
      if p.Inner? {
        StreamedMeant(env, p.body, fuel - 1, pes);
      }
      StreamedMeant(env, s[p.width..], fuel, pes);
    }
  }

  /** What is streamed compares to what is meant by the breaks and the empty entities that are met. */
  ghost predicate Compares(env: Env, s: seq<Byte>, fuel: nat, pes: bool) {
    var e, n := Streamed(env, s, fuel, pes), Meaning(env, s, fuel, pes);
    && e.Some? && n.Some?
    && Compare(Stored(AttrSink(0), e.value), n.value,
        Reaches(env, IN_VALUE, s, BreakReference), Reaches(env, IN_VALUE, s, EmptyEntity))
  }

  lemma {:induction false} StreamedCompares(env: Env, s: seq<Byte>, fuel: nat, pes: bool)
    requires Keyed(env) && Streamed(env, s, fuel, pes).Some?
    ensures Compares(env, s, fuel, pes)
    decreases fuel, |s|
  {
    hide PieceAt, Compares, Reaches;
    if s == [] {
      NothingCompares(env, fuel, pes);
    } else {
      hide Streamed, Meaning;
      AtTheEnd(env, s, fuel, pes);
      var p := PieceAt(env, IN_VALUE, s, pes);
      StreamedOne(env, s, fuel, pes);
      StreamedCompares(env, s[p.width..], fuel, pes);
      if p.Flat? {
        FlatCompares(env, s, fuel, pes);
      } else {
        StreamedCompares(env, p.body, fuel - 1, pes);
        InnerCompares(env, s, fuel, pes);
      }
    }
  }

  lemma NothingCompares(env: Env, fuel: nat, pes: bool)
    requires fuel > 0
    ensures Compares(env, [], fuel, pes)
  {
    hide Reaches, Compare;
    ReachesNone(env, IN_VALUE, BreakReference);
    ReachesNone(env, IN_VALUE, EmptyEntity);
    CompareSame([]);
    PlainStored([]);
  }

  lemma FlatCompares(env: Env, s: seq<Byte>, fuel: nat, pes: bool)
    requires Keyed(env) && s != [] && fuel > 0 && PieceAt(env, IN_VALUE, s, pes).Flat?
    requires Compares(env, s[PieceAt(env, IN_VALUE, s, pes).width..], fuel, pes)
    ensures Compares(env, s, fuel, pes)
  {
    hide PieceAt, MeaningOf, Reaches, Compare, Bears, Stored, Meaning, Streamed;
    var p := PieceAt(env, IN_VALUE, s, pes);
    var after := s[p.width..];
    MarksOne(env, s, pes);
    MeaningOne(env, s, fuel, pes);
    StreamedOne(env, s, fuel, pes);
    PieceCompares(env, s, pes);
    var rest := Streamed(env, after, fuel, pes).value;
    StoredMore(AttrSink(0), p.bytes, rest);
    CompareTogether(
      Stored(AttrSink(0), p.bytes), MeaningOf(env, s, p),
      Bears(env, IN_VALUE, s, BreakReference), Bears(env, IN_VALUE, s, EmptyEntity),
      Stored(AttrSink(0), rest), Meaning(env, after, fuel, pes).value,
      Reaches(env, IN_VALUE, after, BreakReference), Reaches(env, IN_VALUE, after, EmptyEntity));
  }

  lemma InnerCompares(env: Env, s: seq<Byte>, fuel: nat, pes: bool)
    requires s != [] && fuel > 0 && PieceAt(env, IN_VALUE, s, pes).Inner?
    requires Compares(env, PieceAt(env, IN_VALUE, s, pes).body, fuel - 1, pes)
    requires Compares(env, s[PieceAt(env, IN_VALUE, s, pes).width..], fuel, pes)
    ensures Compares(env, s, fuel, pes)
  {
    hide PieceAt, Reaches, Compare, Bears, Stored, Meaning, Streamed;
    var p := PieceAt(env, IN_VALUE, s, pes);
    var after := s[p.width..];
    MarksOne(env, s, pes);
    InnerBears(env, s, pes);
    MeaningOne(env, s, fuel, pes);
    StreamedOne(env, s, fuel, pes);
    var inner, rest := Streamed(env, p.body, fuel - 1, pes).value, Streamed(env, after, fuel, pes).value;
    StoredMore(AttrSink(0), inner, rest);
    CompareTogether(
      Stored(AttrSink(0), inner), Meaning(env, p.body, fuel - 1, pes).value,
      Reaches(env, IN_VALUE, p.body, BreakReference), Reaches(env, IN_VALUE, p.body, EmptyEntity),
      Stored(AttrSink(0), rest), Meaning(env, after, fuel, pes).value,
      Reaches(env, IN_VALUE, after, BreakReference), Reaches(env, IN_VALUE, after, EmptyEntity));
  }

  lemma MarksOne(env: Env, s: seq<Byte>, pes: bool)
    requires s != [] && !PieceAt(env, IN_VALUE, s, pes).Malformed?
    ensures forall mark: Mark ::
      var p := PieceAt(env, IN_VALUE, s, pes);
      Reaches(env, IN_VALUE, s, mark) <==>
        Bears(env, IN_VALUE, s, mark) || (p.Inner? && Reaches(env, IN_VALUE, p.body, mark))
        || Reaches(env, IN_VALUE, s[p.width..], mark)
  {
    hide PieceAt, Reaches, Bears;
    if !pes {
      LenientPiece(env, IN_VALUE, s);
    }
    forall mark: Mark
      ensures var p := PieceAt(env, IN_VALUE, s, pes);
        Reaches(env, IN_VALUE, s, mark) <==>
          Bears(env, IN_VALUE, s, mark) || (p.Inner? && Reaches(env, IN_VALUE, p.body, mark))
          || Reaches(env, IN_VALUE, s[p.width..], mark)
    {
      ReachesOne(env, IN_VALUE, s, mark);
    }
  }

  lemma InnerBears(env: Env, s: seq<Byte>, pes: bool)
    requires s != [] && PieceAt(env, IN_VALUE, s, pes).Inner?
    ensures !Bears(env, IN_VALUE, s, BreakReference) && !Bears(env, IN_VALUE, s, EmptyEntity)
  {
    hide CharRefs.Reference, ReferenceAt, Resolve;
  }

  // ----- which text is streamed -----

  ghost predicate LongChain(env: Env, s: seq<Byte>, levels: nat, path: seq<seq<Byte>>) {
    Leads(env, IN_VALUE, path) && path[0] == s && |path| > levels
  }

  /** Some chain of references from `s` is longer than the levels allow. */
  ghost predicate TooDeep(env: Env, s: seq<Byte>, levels: nat) {
    exists path: seq<seq<Byte>> :: LongChain(env, s, levels, path)
  }

  lemma TooDeepAtTheEnd(env: Env, s: seq<Byte>)
    ensures TooDeep(env, s, 0) && forall levels: nat :: levels > 0 ==> !TooDeep(env, [], levels)
  {
    assert LongChain(env, s, 0, [s]);
    forall levels: nat, path: seq<seq<Byte>> | levels > 0 ensures !LongChain(env, [], levels, path) {
      assert |path| > 1 ==> !Refers(env, IN_VALUE, [], path[0 + 1]);
    }
  }

  lemma DeeperParted(env: Env, s: seq<Byte>, levels: nat, path: seq<seq<Byte>>)
    requires s != [] && levels > 0 && !PieceAt(env, IN_VALUE, s, true).Malformed? && LongChain(env, s, levels, path)
    ensures var p := PieceAt(env, IN_VALUE, s, true);
      (p.Inner? && TooDeep(env, p.body, levels - 1)) || TooDeep(env, s[p.width..], levels)
  {
    hide PieceAt;
    var p := PieceAt(env, IN_VALUE, s, true);
    var rest := s[p.width..];
    assert Refers(env, IN_VALUE, path[0], path[0 + 1]);
    if p.Inner? && p.body == path[1] {
      var tail := path[1..];
      forall i | 0 <= i < |tail| - 1 ensures Refers(env, IN_VALUE, tail[i], tail[i + 1]) {
        assert Refers(env, IN_VALUE, path[i + 1], path[i + 1 + 1]);
      }
      assert LongChain(env, p.body, levels - 1, tail);
    } else {
      PathMoved(env, IN_VALUE, rest, path);
      assert LongChain(env, rest, levels, [rest] + path[1..]);
    }
  }

  lemma TooDeepOne(env: Env, s: seq<Byte>, levels: nat)
    requires s != [] && levels > 0 && !PieceAt(env, IN_VALUE, s, true).Malformed?
    ensures var p := PieceAt(env, IN_VALUE, s, true);
      TooDeep(env, s, levels) <==> (p.Inner? && TooDeep(env, p.body, levels - 1)) || TooDeep(env, s[p.width..], levels)
  {
    hide PieceAt;
    var p := PieceAt(env, IN_VALUE, s, true);
    var rest := s[p.width..];
    if path: seq<seq<Byte>> :| LongChain(env, s, levels, path) {
      DeeperParted(env, s, levels, path);
    }
    if p.Inner? && TooDeep(env, p.body, levels - 1) {
      var path: seq<seq<Byte>> :| LongChain(env, p.body, levels - 1, path);
      PathGrown(env, IN_VALUE, s, path);
      assert LongChain(env, s, levels, [s] + path);
    }
    if TooDeep(env, rest, levels) {
      var path: seq<seq<Byte>> :| LongChain(env, rest, levels, path);
      assert Refers(env, IN_VALUE, path[0], path[0 + 1]);
      PathMoved(env, IN_VALUE, s, path);
      assert LongChain(env, s, levels, [s] + path[1..]);
    }
  }

  /** Of what has a meaning, that is streamed which meets no refused name and is not nested too deeply. */
  lemma {:induction false} AcceptedExactly(env: Env, s: seq<Byte>, levels: nat, pes: bool, depth: nat)
    requires Meaning(env, s, depth, pes).Some?
    ensures Streamed(env, s, levels, pes).Some? <==>
      !Reaches(env, IN_VALUE, s, RefusedName) && !TooDeep(env, s, levels)
    decreases depth, |s|
  {
    hide PieceAt, MeaningOf, Meaning, Streamed, Reaches, Bears, TooDeep;
    AtTheEnd(env, s, depth, pes);
    AtTheEnd(env, s, levels, pes);
    TooDeepAtTheEnd(env, s);
    if s == [] {
      ReachesNone(env, IN_VALUE, RefusedName);
    } else if levels > 0 {
      var p := PieceAt(env, IN_VALUE, s, pes);
      MeaningOne(env, s, depth, pes);
      StreamedOne(env, s, levels, pes);
      if p.Malformed? {
        BornHere(env, s, RefusedName);
      } else {
        MarksOne(env, s, pes);
        RefusedMalformed(env, s, pes);
        if !pes {
          LenientPiece(env, IN_VALUE, s);
        }
        TooDeepOne(env, s, levels);
        if p.Inner? {
          AcceptedExactly(env, p.body, levels - 1, pes, depth - 1);
        }
        AcceptedExactly(env, s[p.width..], levels, pes, depth);
      }
    }
  }

  lemma BornHere(env: Env, s: seq<Byte>, mark: Mark)
    requires s != [] && Bears(env, IN_VALUE, s, mark)
    ensures Reaches(env, IN_VALUE, s, mark)
  {
    hide Bears;
    assert LeadsTo(env, IN_VALUE, s, mark, [s]);
  }

  lemma RefusedMalformed(env: Env, s: seq<Byte>, pes: bool)
    requires s != [] && !PieceAt(env, IN_VALUE, s, pes).Malformed?
    ensures !Bears(env, IN_VALUE, s, RefusedName)
  {
    hide ReferenceAt, NamedAt, Refused, Resolve;
    RefusedExactly(s, env.maxNameLength);
  }

  /** With more levels the meaning is the same. */
  lemma {:induction false} MeaningDeeper(env: Env, s: seq<Byte>, fuel: nat, fuel': nat, pes: bool)
    requires fuel <= fuel' && Meaning(env, s, fuel, pes).Some?
    ensures Meaning(env, s, fuel', pes) == Meaning(env, s, fuel, pes)
    decreases fuel, |s|
  {
    hide CharRefs.Reference, NamedAt, Resolve, Encode, Stored;
    if s != [] {
      if [AMP, HASH] <= s {
        NeverShorter(s, env.xml11);
        MeaningDeeper(env, s[CharRefs.Reference(s, env.xml11).value.width..], fuel, fuel', pes);
      } else if s[0] != AMP {
        MeaningDeeper(env, s[1..], fuel, fuel', pes);
      } else {
        var name := NamedAt(s).value;
        if Resolve(name).None? && name in env.general && env.general[name].kind in {InternalGeneral, ExternalParsed}
          && env.general[name].content != []
        {
          MeaningDeeper(env, env.general[name].content, fuel - 1, fuel' - 1, pes);
        }
        MeaningDeeper(env, s[|name| + 2..], fuel, fuel', pes);
      }
    }
  }

  /** Section 3.3.3 makes `n` of the text, however deeply references are nested in it. */
  ghost predicate Means(env: Env, s: seq<Byte>, pes: bool, n: seq<Byte>) {
    exists depth: nat :: Meaning(env, s, depth, pes) == Some(n)
  }

  lemma MeansOnce(env: Env, s: seq<Byte>, pes: bool, a: seq<Byte>, b: seq<Byte>)
    requires Means(env, s, pes, a) && Means(env, s, pes, b)
    ensures a == b
  {
    hide Meaning;
    var d: nat, e: nat :| Meaning(env, s, d, pes) == Some(a) && Meaning(env, s, e, pes) == Some(b);
    if d <= e {
      MeaningDeeper(env, s, d, e, pes);
    } else {
      MeaningDeeper(env, s, e, d, pes);
    }
  }

  /**
   * Replacement text that means `n` comes into an attribute value exactly when neither it nor any text it leads to has a
   * reference by a refused name, and no chain of references is too long. What comes in is `n` exactly when none of the
   * texts has a character reference to a tab or line break, or a reference to an entity without content.
   */
  lemma StreamedExactly(env: Env, s: seq<Byte>, levels: nat, pes: bool, n: seq<Byte>)
    requires Keyed(env) && Means(env, s, pes, n)
    ensures Streamed(env, s, levels, pes).Some? <==>
      !Reaches(env, IN_VALUE, s, RefusedName) && !TooDeep(env, s, levels)
    ensures Streamed(env, s, levels, pes).Some? ==>
      var same := Stored(AttrSink(0), Streamed(env, s, levels, pes).value) == n;
      same <==> !Reaches(env, IN_VALUE, s, BreakReference) && !Reaches(env, IN_VALUE, s, EmptyEntity)
  {
    hide Streamed, Meaning, Reaches, Compare, TooDeep;
    var depth: nat :| Meaning(env, s, depth, pes) == Some(n);
    AcceptedExactly(env, s, levels, pes, depth);
    if Streamed(env, s, levels, pes).Some? {
      StreamedMeant(env, s, levels, pes);
      MeansOnce(env, s, pes, n, Meaning(env, s, levels, pes).value);
      StreamedCompares(env, s, levels, pes);
      CompareExactly(
        Stored(AttrSink(0), Streamed(env, s, levels, pes).value), n,
        Reaches(env, IN_VALUE, s, BreakReference), Reaches(env, IN_VALUE, s, EmptyEntity), false);
    }
  }

  /** Nothing is streamed that has no meaning. */
  lemma StreamedMeans(env: Env, s: seq<Byte>, levels: nat, pes: bool)
    requires Streamed(env, s, levels, pes).Some?
    ensures exists n: seq<Byte> :: Means(env, s, pes, n)
  {
    hide Streamed, Meaning;
    StreamedMeant(env, s, levels, pes);
    assert Means(env, s, pes, Meaning(env, s, levels, pes).value);
  }

  /** The tab of `&#9;` in replacement text becomes a space. */
  lemma TabLost(env: Env, fuel: nat, pes: bool)
    requires fuel > 0
    ensures var s := [AMP, HASH, '9' as int, SEMI];
      && Meaning(env, s, fuel, pes) == Some([0x9])
      && Streamed(env, s, fuel, pes) == Some([0x9]) && Stored(AttrSink(0), [0x9]) == [SPACE]
  {
    hide CharRefs.Reference, Meaning, Streamed;
    var s := [AMP, HASH, '9' as int, SEMI];
    TabReference(s, env.xml11);
    MeaningOne(env, s, fuel, pes);
    StreamedOne(env, s, fuel, pes);
    AtTheEnd(env, [], fuel, pes);
    assert s[4..] == [] && Encode(0x9) + [] == [0x9];
  }

  lemma TabReference(s: seq<Byte>, xml11: bool)
    requires s == [AMP, HASH, '9' as int, SEMI]
    ensures CharRefs.Reference(s, xml11) == Some(CharRefs.CharRef(0x9, 4))
  {
    var digits := ['9' as int];
    assert AllDigits(digits, false) && Numeral(digits, false) == 9;
    assert s == Opener(false) + digits + [SEMI] + [];
    BodySpelled(s, false, digits, xml11);
    assert Opener(true)[2] != s[2];
  }

  /** The name of an entity without content is written where it is referenced in replacement text. */
  lemma EmptyNamed(env: Env, fuel: nat, pes: bool)
    requires fuel > 0 && Keyed(env) && env.maxNameLength == 0 && ['e' as int] in env.general
    requires env.general[['e' as int]].kind == InternalGeneral && env.general[['e' as int]].content == []
    ensures var s := [AMP, 'e' as int, SEMI];
      Meaning(env, s, fuel, pes) == Some([]) && Streamed(env, s, fuel, pes) == Some(['e' as int])
  {
    hide ReferenceAt, Resolve, Meaning, Streamed;
    var s := [AMP, 'e' as int, SEMI];
    ShortReference(s);
    MeaningOne(env, s, fuel, pes);
    StreamedOne(env, s, fuel, pes);
    AtTheEnd(env, [], fuel, pes);
    assert s[1..2] == ['e' as int] && s[3..] == [] && ['e' as int] + [] == ['e' as int];
    assert NamesEmpty(env, s) && [AMP, HASH][1] != s[1];
    var p := PieceAt(env, IN_VALUE, s, pes);
    assert p.Flat? && p.width == 3 && MeaningOf(env, s, p) == [];
    NothingBefore(Meaning(env, s[3..], fuel, pes).value);
  }

  lemma ShortReference(s: seq<Byte>)
    requires s == [AMP, 'e' as int, SEMI]
    ensures NamedAt(s) == Some(['e' as int]) && Resolve(['e' as int]).None?
    ensures ReferenceAt(s, 0) == EntityText.Reference.Reference(['e' as int], 3)
  {
    var runes, n := ['e' as int], ['e' as int];
    assert runes[1..] == [] && EncodeAll(runes) == Encode('e' as int) + [];
    assert SpelledBy(runes, n);
    forall other: seq<int> | SpelledBy(other, n) ensures RUNE_ERROR !in other {
      EncodedOnce(runes, other);
    }
    assert s == [s[0]] + n + [SEMI];
    NamedAtExact(s, n);
    ReferenceAtExact(s, 0, n);
    assert |n| == 1;
  }

  /** A declared entity whose name holds U+FFFD: `&a\uFFFD;` in replacement text has a meaning and is refused. */
  lemma NameLost(env: Env, levels: nat, pes: bool)
    requires MARKED_NAME in env.general
    requires env.general[MARKED_NAME].kind == InternalGeneral && env.general[MARKED_NAME].content == ['x' as int]
    ensures var s := [AMP] + MARKED_NAME + [SEMI];
      Means(env, s, pes, ['x' as int]) && Streamed(env, s, levels, pes) == None
  {
    hide ReferenceAt, Resolve, Meaning, Streamed;
    var s := [AMP] + MARKED_NAME + [SEMI];
    ReplacementRefused(env.maxNameLength);
    NamedAtExact(s, MARKED_NAME);
    assert s[1] == 'a' as int;
    AtTheEnd(env, s, levels, pes);
    if levels > 0 {
      StreamedOne(env, s, levels, pes);
    }
    MarkedMeans(env, s, pes);
  }

  lemma MarkedMeans(env: Env, s: seq<Byte>, pes: bool)
    requires s == [AMP] + MARKED_NAME + [SEMI] && NamedAt(s) == Some(MARKED_NAME) && MARKED_NAME in env.general
    requires env.general[MARKED_NAME].kind == InternalGeneral && env.general[MARKED_NAME].content == ['x' as int]
    ensures Means(env, s, pes, ['x' as int])
  {
    hide NamedAt;
    var x: seq<Byte> := ['x' as int];
    MarkedNotPredefined();
    assert s[1] == 'a' as int && s[6..] == [] && x[1..] == [];
    assert Meaning(env, [], 1, pes) == Some([]) && Meaning(env, [], 2, pes) == Some([]);
    assert Meaning(env, x, 1, pes) == Before(['x' as int], Some([]));
    assert x + [] == x;
    assert Meaning(env, s, 2, pes) == Joined(Some(x), Some([]));
  }

  lemma MarkedNotPredefined()
    ensures Resolve(MARKED_NAME).None?
  {
    assert Ascii("apos")[1] == 'p' as int;
    assert Ascii("quot")[0] == 'q' as int;
  }

  // ----- the whole value -----

  /** The value before white space is dropped, as section 3.3.3 has it, with entities replaced. */
  ghost function Required(env: Env, tokens: seq<Token>, pes: bool): Option<seq<Byte>> {
    if tokens == [] then Some([])
    else Joined(Required(env, tokens[..|tokens| - 1], pes), RequiredOf(env, tokens[|tokens| - 1], pes))
  }

  ghost function RequiredOf(env: Env, t: Token, pes: bool): Option<seq<Byte>> {
    match t
    case Char(bytes) => Some(bytes)
    case White => Some([SPACE])
    case CharRef(r) => Some(if IsScalar(r) then Encode(r) else [])
    case Text(bytes) => Some(bytes)
    case Missing => Some([])
    case Content(content) => Meaning(env, content, LevelsLeft(0), pes)
  }

  /** The token brings in a character reference to a tab or line break, or a nested reference to an empty entity. */
  ghost predicate Brings(env: Env, t: Token, mark: Mark) {
    t.Content? && Reaches(env, IN_VALUE, t.content, mark)
  }

  ghost predicate AnyBrings(env: Env, tokens: seq<Token>, mark: Mark) {
    exists t :: t in tokens && Brings(env, t, mark)
  }

  /** The declarations and the counter are as the parser keeps them, and references are read as in a value. */
  ghost predicate InValue(c: Config, st: State) {
    c.mode == IN_VALUE && Keyed(c.env) && Costed(c.env) && 0 <= st.size <= MAX_INT64
  }

  ghost predicate TokenRelated(c: Config, t: Token, st: State) {
    var w, n := Written(c, t, true, st), RequiredOf(c.env, t, st.pes);
    && w.Finished? && n.Some? && InValue(c, w.st) && w.st.pes == st.pes
    && Compare(w.out, n.value, Brings(c.env, t, BreakReference), Brings(c.env, t, EmptyEntity))
  }

  lemma TokenCompares(c: Config, t: Token, st: State)
    requires InValue(c, st) && Written(c, t, true, st).Finished?
    ensures TokenRelated(c, t, st)
  {
    hide DecodeText, Charged, Compare, Reaches, Meaning, Encode;
    match t {
      case Content(content) =>
        ContentCompares(c, content, st);
      case Missing =>
        ChargePaid(c.budget, st.size, Due(None, 0));
        CompareSame([]);
      case _ =>
        CompareSame(Written(c, t, true, st).out);
    }
  }

  lemma ContentCompares(c: Config, content: seq<Byte>, st: State)
    requires InValue(c, st) && DecodeText(c, content, LevelsLeft(0), st).Finished?
    ensures TokenRelated(c, Content(content), st)
  {
    hide Compare, Reaches, Meaning, DecodeText, Costed, Keyed, Expand;
    var fuel := LevelsLeft(0);
    var e := Expand(c.env, c.mode, content, fuel, st.pes);
    DecodeExact(c, content, fuel, st);
    assert e.Done?;
    CostNonNegative(c.env, c.mode, content, fuel, st.pes);
    SettledPaid(c.budget, st.size, e);
    PesKept(c.env, content, fuel, st.pes);
    StreamedCompares(c.env, content, fuel, st.pes);
  }

  ghost predicate ValueRelated(c: Config, tokens: seq<Token>, st: State) {
    var w, n := CData(c, tokens, true, st), Required(c.env, tokens, st.pes);
    && w.Finished? && n.Some? && InValue(c, w.st) && w.st.pes == st.pes
    && Compare(w.out, n.value, AnyBrings(c.env, tokens, BreakReference), AnyBrings(c.env, tokens, EmptyEntity))
  }

  lemma AnyBringsOne(env: Env, tokens: seq<Token>, mark: Mark)
    ensures AnyBrings(env, tokens, mark) <==>
      tokens != [] && (AnyBrings(env, tokens[..|tokens| - 1], mark) || Brings(env, tokens[|tokens| - 1], mark))
  {
    hide Brings;
    if tokens != [] {
      var init, last := tokens[..|tokens| - 1], tokens[|tokens| - 1];
      assert tokens == init + [last];
      assert last in tokens;
    }
  }

  lemma {:induction false} ValueCompares(c: Config, tokens: seq<Token>, st: State)
    requires InValue(c, st) && CData(c, tokens, true, st).Finished?
    ensures ValueRelated(c, tokens, st)
  {
    hide Written, RequiredOf, InValue, Compare, AnyBrings, Brings;
    AnyBringsOne(c.env, tokens, BreakReference);
    AnyBringsOne(c.env, tokens, EmptyEntity);
    if tokens == [] {
      CompareSame([]);
    } else {
      var init, last := tokens[..|tokens| - 1], tokens[|tokens| - 1];
      var w := CData(c, init, true, st);
      ValueCompares(c, init, st);
      TokenCompares(c, last, w.st);
      CompareTogether(
        w.out, Required(c.env, init, st.pes).value,
        AnyBrings(c.env, init, BreakReference), AnyBrings(c.env, init, EmptyEntity),
        Written(c, last, true, w.st).out, RequiredOf(c.env, last, st.pes).value,
        Brings(c.env, last, BreakReference), Brings(c.env, last, EmptyEntity));
    }
  }

  /**
   * With entities replaced, the value of an attribute of either type is the one section 3.3.3 asks for exactly when no
   * reference in it leads, through replacement text, to a character reference to a tab or line break or to a reference to
   * an entity without content.
   */
  lemma ValueExactly(c: Config, tokens: seq<Token>, st: State, normalize: bool)
    requires InValue(c, st) && CData(c, tokens, true, st).Finished?
    ensures Required(c.env, tokens, st.pes).Some?
    ensures var w, n := CData(c, tokens, true, st).out, Required(c.env, tokens, st.pes).value;
      OfType(w, normalize) == OfType(n, normalize) <==>
        !AnyBrings(c.env, tokens, BreakReference) && !AnyBrings(c.env, tokens, EmptyEntity)
  {
    hide CData, Required, InValue, Compare, AnyBrings, OfType;
    ValueCompares(c, tokens, st);
    CompareExactly(
      CData(c, tokens, true, st).out, Required(c.env, tokens, st.pes).value,
      AnyBrings(c.env, tokens, BreakReference), AnyBrings(c.env, tokens, EmptyEntity), normalize);
  }

  /** The value of an attribute as it is read, against section 3.3.3. */
  method AttributeValue(tokens: seq<Token>, normalize: bool, decoder: Decoder, sink: Sink)
    returns (ok: bool, value: seq<Byte>, changed: bool)
    requires sink.Valid() && sink.kind.AttrSink? && sink.buf == [] && forall t :: t in tokens ==> WellFormed(t)
    requires InValue(decoder.config, decoder.Now())
    modifies decoder, sink
    ensures !ok ==>
      var r := CData(decoder.config, tokens, true, old(decoder.Now()));
      r.Failed? || !Fits(sink.kind, |r.out|)
    ensures ok ==>
      var n := Required(decoder.config.env, tokens, old(decoder.hasPERefs));
      && n.Some?
      && (value == OfType(n.value, normalize) <==>
          !AnyBrings(decoder.config.env, tokens, BreakReference) && !AnyBrings(decoder.config.env, tokens, EmptyEntity))
  {
    hide CData, Required, InValue, AnyBrings, Collapse, WellFormed;
    ghost var st := decoder.Now();
    ok, value, changed := NormalizedValue(tokens, normalize, true, decoder, sink);
    if ok {
      ValueExactly(decoder.config, tokens, st, normalize);
    }
  }
}
