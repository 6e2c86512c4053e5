/** The full expansion of text with references, and when there is one. */
module EntityExpansion {
  import opened Utf8
  import opened CharRefs
  import opened EntityText
  import opened Wrappers

  const FIXED_COST := 20

  function Price(charge: Charge): int {
    match charge
    case Free => 0
    case Due(ent, n) => (if ent.Some? && ent.value.checked then ent.value.expandedSize else n) + FIXED_COST
  }

  /** The bytes written, what all charges come to, and whether a parameter entity has been referenced by then. */
  datatype Expansion = Fail | Done(out: seq<Byte>, cost: int, pes: bool)

  function After(out: seq<Byte>, cost: int, rest: Expansion): Expansion {
    if rest.Fail? then Fail else Done(out + rest.out, cost + rest.cost, rest.pes)
  }

  function InnerCost(p: Piece, inner: Expansion): int
    requires p.Inner? && inner.Done?
  {
    Price(p.charge) + inner.cost + Price(Due(Some(p.ent), |inner.out|))
  }

  /** The decoding loop without a budget: `fuel` is the number of levels left. */
  function Expand(env: Env, mode: Mode, s: seq<Byte>, fuel: nat, pes: bool): Expansion
    decreases fuel, |s|
  {
    if fuel == 0 then Fail
    else if s == [] then Done([], 0, pes)
    else
      var p := PieceAt(env, mode, s, pes);
      match p
      case Malformed => Fail
      case Flat(bytes, width, charge, pe) => After(bytes, Price(charge), Expand(env, mode, s[width..], fuel, pes || pe))
      case Inner(body, width, charge, pe, ent) =>
        var inner := Expand(env, mode, body, fuel - 1, pes || pe);
        if inner.Fail? then Fail
        else After(inner.out, InnerCost(p, inner), Expand(env, mode, s[width..], fuel, inner.pes))
  }

  /** With more levels the result is the same. */
  lemma {:induction false} DeeperSame(env: Env, mode: Mode, s: seq<Byte>, fuel: nat, fuel': nat, pes: bool)
    requires fuel <= fuel' && Expand(env, mode, s, fuel, pes).Done?
    ensures Expand(env, mode, s, fuel', pes) == Expand(env, mode, s, fuel, pes)
    decreases fuel, |s|
  {
    hide PieceAt;
    if s != [] {
      var p := PieceAt(env, mode, s, pes);
      if p.Flat? {
        DeeperSame(env, mode, s[p.width..], fuel, fuel', pes || p.pe);
      } else {
        DeeperSame(env, mode, p.body, fuel - 1, fuel' - 1, pes || p.pe);
        DeeperSame(env, mode, s[p.width..], fuel, fuel', Expand(env, mode, p.body, fuel - 1, pes || p.pe).pes);
      }
    }
  }

  // ----- derivations -----

  /** How a text is replaced: piece by piece, with a derivation of its own for every replacement text. */
  datatype Derivation = End | Step(rest: Derivation) | Nest(inner: Derivation, rest: Derivation)

  function Levels(d: Derivation): nat {
    match d
    case End => 1
    case Step(rest) => Levels(rest)
    case Nest(inner, rest) => if 1 + Levels(inner) > Levels(rest) then 1 + Levels(inner) else Levels(rest)
  }

  /** What the derivation yields, if it is one of this text. No depth is counted. */
  function Yield(env: Env, mode: Mode, s: seq<Byte>, pes: bool, d: Derivation): Expansion
    decreases d
  {
    if d.End? || s == [] then (if d.End? && s == [] then Done([], 0, pes) else Fail)
    else
      var p := PieceAt(env, mode, s, pes);
      match p
      case Malformed => Fail
      case Flat(bytes, width, charge, pe) =>
        if d.Step? then After(bytes, Price(charge), Yield(env, mode, s[width..], pes || pe, d.rest)) else Fail
      case Inner(body, width, charge, pe, ent) =>
        if d.Step? then Fail
        else
          var inner := Yield(env, mode, body, pes || pe, d.inner);
          if inner.Fail? then Fail
          else After(inner.out, InnerCost(p, inner), Yield(env, mode, s[width..], inner.pes, d.rest))
  }

  lemma {:induction false} Derive(env: Env, mode: Mode, s: seq<Byte>, fuel: nat, pes: bool) returns (d: Derivation)
    requires Expand(env, mode, s, fuel, pes).Done?
    ensures Levels(d) <= fuel && Yield(env, mode, s, pes, d) == Expand(env, mode, s, fuel, pes)
    decreases fuel, |s|
  {
    hide PieceAt;
    if s == [] {
      d := End;
    } else {
      var p := PieceAt(env, mode, s, pes);
      if p.Flat? {
        var rest := Derive(env, mode, s[p.width..], fuel, pes || p.pe);
        d := Step(rest);
      } else {
        var inner := Derive(env, mode, p.body, fuel - 1, pes || p.pe);
        var rest := Derive(env, mode, s[p.width..], fuel, Yield(env, mode, p.body, pes || p.pe, inner).pes);
        d := Nest(inner, rest);
      }
    }
  }

  lemma {:induction false} Derived(env: Env, mode: Mode, s: seq<Byte>, fuel: nat, pes: bool, d: Derivation)
    requires Levels(d) <= fuel && Yield(env, mode, s, pes, d).Done?
    ensures Expand(env, mode, s, fuel, pes) == Yield(env, mode, s, pes, d)
    decreases d
  {
    hide PieceAt;
    LevelsPositive(d);
    if s != [] {
      var p := PieceAt(env, mode, s, pes);
      if p.Flat? {
        Derived(env, mode, s[p.width..], fuel, pes || p.pe, d.rest);
      } else {
        Derived(env, mode, p.body, fuel - 1, pes || p.pe, d.inner);
        Derived(env, mode, s[p.width..], fuel, Yield(env, mode, p.body, pes || p.pe, d.inner).pes, d.rest);
      }
    }
  }

  lemma {:induction false} LevelsPositive(d: Derivation)
    ensures Levels(d) > 0
  {
    if !d.End? {
      LevelsPositive(d.rest);
    }
  }

  lemma {:induction false} DerivationUnique(
    env: Env, mode: Mode, s: seq<Byte>, pes: bool, d: Derivation, d': Derivation)
    requires Yield(env, mode, s, pes, d).Done? && Yield(env, mode, s, pes, d').Done?
    ensures d == d'
    decreases d
  {
    hide PieceAt;
    if s != [] {
      var p := PieceAt(env, mode, s, pes);
      if p.Flat? {
        DerivationUnique(env, mode, s[p.width..], pes || p.pe, d.rest, d'.rest);
      } else {
        DerivationUnique(env, mode, p.body, pes || p.pe, d.inner, d'.inner);
        DerivationUnique(
          env, mode, s[p.width..], Yield(env, mode, p.body, pes || p.pe, d.inner).pes, d.rest, d'.rest);
      }
    }
  }

  /**
   * A depth budget only decides whether there is a result: with `fuel` levels the expansion is `r` exactly when
   * some derivation at most that deep yields `r`, and a text has at most one derivation.
   */
  lemma ExpandExact(env: Env, mode: Mode, s: seq<Byte>, fuel: nat, pes: bool, r: Expansion)
    requires r.Done?
    ensures Expand(env, mode, s, fuel, pes) == r <==>
      exists d: Derivation :: Levels(d) <= fuel && Yield(env, mode, s, pes, d) == r
    ensures forall d, d': Derivation :: Yield(env, mode, s, pes, d).Done? && Yield(env, mode, s, pes, d').Done? ==> d == d'
  {
    hide PieceAt;
    if Expand(env, mode, s, fuel, pes) == r {
      var d := Derive(env, mode, s, fuel, pes);
    }
    if d: Derivation :| Levels(d) <= fuel && Yield(env, mode, s, pes, d) == r {
      Derived(env, mode, s, fuel, pes, d);
    }
    forall d, d': Derivation | Yield(env, mode, s, pes, d).Done? && Yield(env, mode, s, pes, d').Done?
      ensures d == d'
    {
      DerivationUnique(env, mode, s, pes, d, d');
    }
  }

  // ----- parameter-entity references seen -----

  /** Lenient lookups give the same result where strict ones succeed. */
  lemma {:induction false} LenientSame(env: Env, mode: Mode, s: seq<Byte>, fuel: nat, pes: bool)
    requires Expand(env, mode, s, fuel, pes).Done?
    ensures Expand(env, mode, s, fuel, true) == Expand(env, mode, s, fuel, pes).(pes := true)
    decreases fuel, |s|
  {
    hide PieceAt;
    if s != [] {
      if !pes {
        LenientPiece(env, mode, s);
      }
      var p := PieceAt(env, mode, s, pes);
      if p.Flat? {
        LenientSame(env, mode, s[p.width..], fuel, pes || p.pe);
      } else {
        LenientSame(env, mode, p.body, fuel - 1, pes || p.pe);
        LenientSame(env, mode, s[p.width..], fuel, Expand(env, mode, p.body, fuel - 1, pes || p.pe).pes);
      }
    }
  }

  // ----- chains of references, read leniently -----

  /** Scanning `s` meets a reference whose replacement text is `body`; undeclared entities are let pass. */
  ghost predicate Refers(env: Env, mode: Mode, s: seq<Byte>, body: seq<Byte>)
    decreases |s|
  {
    s != [] &&
    var p := PieceAt(env, mode, s, true);
    !p.Malformed? && ((p.Inner? && p.body == body) || Refers(env, mode, s[p.width..], body))
  }

  /** What may be noted of a piece. */
  datatype Mark = ParameterEntity | BreakReference | EmptyEntity | RefusedName

  /**
   * The front of the text is a reference to a parameter entity; a character reference to a tab or a line break; a
   * reference to a declared entity without content; a reference whose name the scanner refuses.
   */
  ghost predicate Bears(env: Env, mode: Mode, s: seq<Byte>, mark: Mark)
    requires s != []
  {
    match mark
    case ParameterEntity => var p := PieceAt(env, mode, s, true); !p.Malformed? && p.pe
    case BreakReference =>
      [AMP, HASH] <= s && var v := CharRefs.Reference(s, env.xml11); v.Some? && IsBreak(v.value.r)
    case EmptyEntity => !([AMP, HASH] <= s) && s[0] == AMP && mode.refs && NamesEmpty(env, s)
    case RefusedName =>
      && !([AMP, HASH] <= s) && ((s[0] == AMP && mode.refs) || (s[0] == PERCENT && mode.peRefs))
      && NamedAt(s).Some? && Refused(NamedAt(s).value, env.maxNameLength)
  }

  predicate NamesEmpty(env: Env, s: seq<Byte>)
    requires s != []
  {
    var r := ReferenceAt(s, env.maxNameLength);
    r.Reference? && Resolve(r.name).None? && r.name in env.general
    && env.general[r.name].kind in {InternalGeneral, ExternalParsed} && env.general[r.name].content == []
  }

  /** Scanning `s` meets a piece that bears the mark. */
  ghost predicate Shows(env: Env, mode: Mode, s: seq<Byte>, mark: Mark)
    decreases |s|
  {
    s != [] &&
    var p := PieceAt(env, mode, s, true);
    Bears(env, mode, s, mark) || (!p.Malformed? && Shows(env, mode, s[p.width..], mark))
  }

  /** Every text of the path is referred to by the one before. */
  ghost predicate Leads(env: Env, mode: Mode, path: seq<seq<Byte>>) {
    path != [] && forall i {:trigger path[i]} :: 0 <= i < |path| - 1 ==> Refers(env, mode, path[i], path[i + 1])
  }

  ghost predicate LeadsTo(env: Env, mode: Mode, s: seq<Byte>, mark: Mark, path: seq<seq<Byte>>) {
    Leads(env, mode, path) && path[0] == s && Shows(env, mode, path[|path| - 1], mark)
  }

  /** Some chain of references from `s` comes to a piece that bears the mark. */
  ghost predicate Reaches(env: Env, mode: Mode, s: seq<Byte>, mark: Mark) {
    exists path: seq<seq<Byte>> :: LeadsTo(env, mode, s, mark, path)
  }

  lemma PathGrown(env: Env, mode: Mode, s: seq<Byte>, path: seq<seq<Byte>>)
    requires Leads(env, mode, path) && Refers(env, mode, s, path[0])
    ensures Leads(env, mode, [s] + path)
  {
    hide Refers;
    var grown := [s] + path;
    forall i | 0 <= i < |grown| - 1 ensures Refers(env, mode, grown[i], grown[i + 1]) {
      if i > 0 {
        assert Refers(env, mode, path[i - 1], path[i - 1 + 1]);
      }
    }
  }

  /** The path with another first text that refers to the same. */
  lemma PathMoved(env: Env, mode: Mode, s: seq<Byte>, path: seq<seq<Byte>>)
    requires Leads(env, mode, path) && |path| > 1 && Refers(env, mode, s, path[1])
    ensures Leads(env, mode, [s] + path[1..])
  {
    hide Refers;
    var rest := path[1..];
    forall i | 0 <= i < |rest| - 1 ensures Refers(env, mode, rest[i], rest[i + 1]) {
      assert Refers(env, mode, path[i + 1], path[i + 1 + 1]);
    }
    PathGrown(env, mode, s, rest);
  }

  /** What the first piece contributes to reaching a mark, and what the rest does. */
  lemma ReachesOne(env: Env, mode: Mode, s: seq<Byte>, mark: Mark)
    requires s != [] && !PieceAt(env, mode, s, true).Malformed?
    ensures var p := PieceAt(env, mode, s, true);
      Reaches(env, mode, s, mark) <==>
        Bears(env, mode, s, mark) || (p.Inner? && Reaches(env, mode, p.body, mark)) || Reaches(env, mode, s[p.width..], mark)
  {
    hide PieceAt, Bears;
    var p := PieceAt(env, mode, s, true);
    var rest := s[p.width..];
    if path: seq<seq<Byte>> :| LeadsTo(env, mode, s, mark, path) {
      PathParted(env, mode, s, mark, path);
    }
    if Bears(env, mode, s, mark) {
      assert LeadsTo(env, mode, s, mark, [s]);
    }
    if p.Inner? && Reaches(env, mode, p.body, mark) {
      var path: seq<seq<Byte>> :| LeadsTo(env, mode, p.body, mark, path);
      PathGrown(env, mode, s, path);
      assert LeadsTo(env, mode, s, mark, [s] + path);
    }
    if Reaches(env, mode, rest, mark) {
      var path: seq<seq<Byte>> :| LeadsTo(env, mode, rest, mark, path);
      if |path| == 1 {
        assert LeadsTo(env, mode, s, mark, [s]);
      } else {
        assert Refers(env, mode, path[0], path[0 + 1]);
        PathMoved(env, mode, s, path);
        assert LeadsTo(env, mode, s, mark, [s] + path[1..]);
      }
    }
  }

  lemma PathParted(env: Env, mode: Mode, s: seq<Byte>, mark: Mark, path: seq<seq<Byte>>)
    requires s != [] && !PieceAt(env, mode, s, true).Malformed? && LeadsTo(env, mode, s, mark, path)
    ensures var p := PieceAt(env, mode, s, true);
      Bears(env, mode, s, mark) || (p.Inner? && Reaches(env, mode, p.body, mark)) || Reaches(env, mode, s[p.width..], mark)
  {
    hide PieceAt, Bears;
    var p := PieceAt(env, mode, s, true);
    var rest := s[p.width..];
    if |path| == 1 {
      assert Bears(env, mode, s, mark) || LeadsTo(env, mode, rest, mark, [rest]);
    } else {
      assert Refers(env, mode, path[0], path[0 + 1]);
      if p.Inner? && p.body == path[1] {
        var tail := path[1..];
        forall i | 0 <= i < |tail| - 1 ensures Refers(env, mode, tail[i], tail[i + 1]) {
          assert Refers(env, mode, path[i + 1], path[i + 1 + 1]);
        }
        assert LeadsTo(env, mode, p.body, mark, tail);
      } else {
        PathMoved(env, mode, rest, path);
        assert LeadsTo(env, mode, rest, mark, [rest] + path[1..]);
      }
    }
  }

  lemma ReachesNone(env: Env, mode: Mode, mark: Mark)
    ensures !Reaches(env, mode, [], mark)
  {
    forall path: seq<seq<Byte>> ensures !LeadsTo(env, mode, [], mark, path) {
      if |path| > 1 {
        assert !Refers(env, mode, [], path[0 + 1]);
      }
    }
  }

  // ----- which texts can be expanded -----

  /** Whether a parameter entity has been referenced once `p` is dealt with. */
  ghost predicate SeenAfter(env: Env, mode: Mode, p: Piece, pes: bool)
    requires !p.Malformed?
  {
    pes || p.pe || (p.Inner? && Reaches(env, mode, p.body, ParameterEntity))
  }

  /** That is what expansion arrives at. */
  lemma {:induction false} SeenExact(env: Env, mode: Mode, s: seq<Byte>, fuel: nat, pes: bool)
    requires Expand(env, mode, s, fuel, pes).Done?
    ensures Expand(env, mode, s, fuel, pes).pes <==> pes || Reaches(env, mode, s, ParameterEntity)
    decreases fuel, |s|
  {
    hide PieceAt, Reaches;
    if s == [] {
      ReachesNone(env, mode, ParameterEntity);
    } else {
      if !pes {
        LenientPiece(env, mode, s);
      }
      var p := PieceAt(env, mode, s, pes);
      ReachesOne(env, mode, s, ParameterEntity);
      if p.Flat? {
        SeenExact(env, mode, s[p.width..], fuel, pes || p.pe);
      } else {
        SeenExact(env, mode, p.body, fuel - 1, pes || p.pe);
        SeenExact(env, mode, s[p.width..], fuel, Expand(env, mode, p.body, fuel - 1, pes || p.pe).pes);
      }
    }
  }

  /** A text, and whether a parameter entity has been referenced when its turn comes. */
  datatype Visit = Visit(text: seq<Byte>, pes: bool)

  /** Scanning the text meets nothing ill-formed. */
  ghost predicate Clean(env: Env, mode: Mode, v: Visit)
    decreases |v.text|
  {
    v.text == [] || (
      var p := PieceAt(env, mode, v.text, v.pes);
      !p.Malformed? && Clean(env, mode, Visit(v.text[p.width..], SeenAfter(env, mode, p, v.pes))))
  }

  /** Scanning the text meets a reference whose replacement text is visited next. */
  ghost predicate Meets(env: Env, mode: Mode, v: Visit, w: Visit)
    decreases |v.text|
  {
    v.text != [] &&
    var p := PieceAt(env, mode, v.text, v.pes);
    !p.Malformed? && (
      (p.Inner? && w == Visit(p.body, v.pes || p.pe))
      || Meets(env, mode, Visit(v.text[p.width..], SeenAfter(env, mode, p, v.pes)), w))
  }

  /** Every visit of the route is met by the one before. */
  ghost predicate Route(env: Env, mode: Mode, route: seq<Visit>) {
    route != [] && forall i {:trigger route[i]} :: 0 <= i < |route| - 1 ==> Meets(env, mode, route[i], route[i + 1])
  }

  ghost predicate Expands(env: Env, mode: Mode, v: Visit, fuel: nat) {
    Expand(env, mode, v.text, fuel, v.pes).Done?
  }

  lemma ExpandsOne(env: Env, mode: Mode, v: Visit, fuel: nat)
    requires v.text != [] && fuel > 0
    ensures var p := PieceAt(env, mode, v.text, v.pes);
      Expands(env, mode, v, fuel) <==>
        && !p.Malformed? && (p.Inner? ==> Expands(env, mode, Visit(p.body, v.pes || p.pe), fuel - 1))
        && Expands(env, mode, Visit(v.text[p.width..], SeenAfter(env, mode, p, v.pes)), fuel)
  {
    hide PieceAt, Reaches;
    var p := PieceAt(env, mode, v.text, v.pes);
    if p.Inner? && Expand(env, mode, p.body, fuel - 1, v.pes || p.pe).Done? {
      SeenExact(env, mode, p.body, fuel - 1, v.pes || p.pe);
    }
  }

  /** All that is met can be expanded. */
  ghost predicate AllExpand(env: Env, mode: Mode, v: Visit, fuel: nat) {
    forall w: Visit {:trigger Meets(env, mode, v, w)} :: Meets(env, mode, v, w) ==> Expands(env, mode, w, fuel)
  }

  lemma AllExpandOne(env: Env, mode: Mode, v: Visit, fuel: nat)
    requires v.text != [] && !PieceAt(env, mode, v.text, v.pes).Malformed?
    ensures var p := PieceAt(env, mode, v.text, v.pes);
      AllExpand(env, mode, v, fuel) <==>
        && (p.Inner? ==> Expands(env, mode, Visit(p.body, v.pes || p.pe), fuel))
        && AllExpand(env, mode, Visit(v.text[p.width..], SeenAfter(env, mode, p, v.pes)), fuel)
  {
    hide PieceAt, Expands, SeenAfter;
    var p := PieceAt(env, mode, v.text, v.pes);
    var rest := Visit(v.text[p.width..], SeenAfter(env, mode, p, v.pes));
    forall w: Visit
      ensures Meets(env, mode, v, w) <==> (p.Inner? && w == Visit(p.body, v.pes || p.pe)) || Meets(env, mode, rest, w)
    {
    }
    if AllExpand(env, mode, v, fuel) {
      assert p.Inner? ==> Meets(env, mode, v, Visit(p.body, v.pes || p.pe));
      forall w: Visit | Meets(env, mode, rest, w) ensures Expands(env, mode, w, fuel) {
        assert Meets(env, mode, v, w);
      }
    }
  }

  /** A text can be expanded exactly when it is well-formed and so can be all it refers to, with a level less. */
  lemma {:induction false} ExpandsIff(env: Env, mode: Mode, v: Visit, fuel: nat)
    ensures Expands(env, mode, v, fuel) <==> fuel > 0 && Clean(env, mode, v) && AllExpand(env, mode, v, fuel - 1)
    decreases |v.text|
  {
    hide PieceAt, SeenAfter;
    if fuel > 0 && v.text != [] {
      hide Expands;
      var p := PieceAt(env, mode, v.text, v.pes);
      ExpandsOne(env, mode, v, fuel);
      if !p.Malformed? {
        AllExpandOne(env, mode, v, fuel - 1);
        ExpandsIff(env, mode, Visit(v.text[p.width..], SeenAfter(env, mode, p, v.pes)), fuel);
      }
    }
  }

  /** A route from `s` that shows that `s` cannot be expanded. */
  ghost predicate Obstacle(env: Env, mode: Mode, v: Visit, route: seq<Visit>, limit: nat) {
    Route(env, mode, route) && route[0] == v && (|route| > limit || !Clean(env, mode, route[|route| - 1]))
  }

  lemma {:induction false} RouteExpands(env: Env, mode: Mode, route: seq<Visit>, fuel: nat, i: nat)
    requires Route(env, mode, route) && i < |route| && Expands(env, mode, route[0], fuel)
    ensures i < fuel && Expands(env, mode, route[i], fuel - i) && Clean(env, mode, route[i])
  {
    hide Meets, Clean, Expands;
    if i > 0 {
      RouteExpands(env, mode, route, fuel, i - 1);
      assert Meets(env, mode, route[i - 1], route[i - 1 + 1]);
      ExpandsIff(env, mode, route[i - 1], fuel - (i - 1));
    }
    ExpandsIff(env, mode, route[i], fuel - i);
  }

  lemma {:induction false} FindObstacle(env: Env, mode: Mode, v: Visit, fuel: nat) returns (route: seq<Visit>)
    requires !Expands(env, mode, v, fuel)
    ensures Obstacle(env, mode, v, route, fuel)
    decreases fuel
  {
    hide Meets, Clean, Expands;
    route := [v];
    if fuel > 0 && Clean(env, mode, v) {
      ExpandsIff(env, mode, v, fuel);
      var w: Visit :| Meets(env, mode, v, w) && !Expands(env, mode, w, fuel - 1);
      var more := FindObstacle(env, mode, w, fuel - 1);
      route := [v] + more;
      forall i | 0 <= i < |route| - 1 ensures Meets(env, mode, route[i], route[i + 1]) {
        if i > 0 {
          assert Meets(env, mode, more[i - 1], more[i - 1 + 1]);
        }
      }
    }
  }

  /**
   * Expansion succeeds exactly when no chain of references from the text is longer than the levels allow or ends in
   * ill-formed text, where what is ill-formed depends on whether a parameter entity has been referenced by then.
   */
  lemma ExpandsExactly(env: Env, mode: Mode, s: seq<Byte>, fuel: nat, pes: bool)
    ensures Expand(env, mode, s, fuel, pes).Done? <==>
      forall route: seq<Visit> :: !Obstacle(env, mode, Visit(s, pes), route, fuel)
  {
    hide Expand, Meets, Clean;
    var v := Visit(s, pes);
    if Expand(env, mode, s, fuel, pes).Done? {
      forall route: seq<Visit> ensures !Obstacle(env, mode, v, route, fuel) {
        if Obstacle(env, mode, v, route, fuel) {
          RouteExpands(env, mode, route, fuel, |route| - 1);
        }
      }
    } else {
      var route := FindObstacle(env, mode, v, fuel);
    }
  }

  // ----- cycles -----

  /** What is referred to leniently is met once a parameter entity has been referenced. */
  lemma {:induction false} RefersMeets(env: Env, mode: Mode, s: seq<Byte>, body: seq<Byte>)
    requires Refers(env, mode, s, body)
    ensures Meets(env, mode, Visit(s, true), Visit(body, true))
    decreases |s|
  {
    hide PieceAt;
    var p := PieceAt(env, mode, s, true);
    if !(p.Inner? && p.body == body) {
      RefersMeets(env, mode, s[p.width..], body);
    }
  }

  lemma {:induction false} PathExpands(env: Env, mode: Mode, path: seq<seq<Byte>>, fuel: nat, i: nat)
    requires Leads(env, mode, path) && i < |path| && Expand(env, mode, path[0], fuel, true).Done?
    ensures i < fuel && Expand(env, mode, path[i], fuel - i, true).Done?
  {
    hide Refers, Meets, Clean, Expand;
    if i > 0 {
      PathExpands(env, mode, path, fuel, i - 1);
      assert Refers(env, mode, path[i - 1], path[i - 1 + 1]);
      RefersMeets(env, mode, path[i - 1], path[i]);
      ExpandsIff(env, mode, Visit(path[i - 1], true), fuel - (i - 1));
      assert Expands(env, mode, Visit(path[i], true), fuel - i);
    }
    ExpandsIff(env, mode, Visit(path[i], true), fuel - i);
  }

  lemma {:induction false} RoundAndRound(env: Env, mode: Mode, loop: seq<seq<Byte>>, fuel: nat)
    requires Leads(env, mode, loop) && |loop| > 1 && loop[0] == loop[|loop| - 1]
    ensures Expand(env, mode, loop[0], fuel, true).Fail?
    decreases fuel
  {
    hide Refers, Expand;
    if Expand(env, mode, loop[0], fuel, true).Done? {
      PathExpands(env, mode, loop, fuel, |loop| - 1);
      RoundAndRound(env, mode, loop, fuel - (|loop| - 1));
    }
  }

  /** Nothing that leads to a replacement text leading back to itself is ever expanded, however many levels there are. */
  lemma CycleFails(env: Env, mode: Mode, path: seq<seq<Byte>>, i: nat, j: nat, fuel: nat, pes: bool)
    requires Leads(env, mode, path) && i < j < |path| && path[i] == path[j]
    ensures Expand(env, mode, path[0], fuel, pes).Fail?
  {
    hide Refers, Expand;
    if Expand(env, mode, path[0], fuel, pes).Done? {
      LenientSame(env, mode, path[0], fuel, pes);
      PathExpands(env, mode, path, fuel, i);
      var loop := path[i..j + 1];
      forall k | 0 <= k < |loop| - 1 ensures Refers(env, mode, loop[k], loop[k + 1]) {
        assert Refers(env, mode, path[i + k], path[i + k + 1]);
      }
      RoundAndRound(env, mode, loop, fuel - i);
    }
  }

  // ----- growth -----

  /** No entity is marked checked; the table is keyed by name and keeps the predefined entities out. */
  ghost predicate Unchecked(env: Env) {
    && (forall n :: n in env.general ==>
      !env.general[n].checked && env.general[n].name == n && env.general[n].kind != Predefined)
    && (forall n :: n in env.parameter ==> !env.parameter[n].checked)
  }

  ghost predicate UncheckedCharges(p: Piece) {
    p.Malformed? || (Price(p.charge) >= 0 && (p.Flat? ==> |p.bytes| <= p.width) && (p.Inner? ==> !p.ent.checked))
  }

  lemma UncheckedPiece(env: Env, mode: Mode, s: seq<Byte>, pes: bool)
    requires Unchecked(env) && s != []
    ensures UncheckedCharges(PieceAt(env, mode, s, pes))
  {
    hide CharRefPiece, GeneralPiece, ParameterPiece;
    UncheckedGeneral(env, s, pes);
    UncheckedParameter(env, mode, s, pes);
  }

  lemma UncheckedGeneral(env: Env, s: seq<Byte>, pes: bool)
    requires Unchecked(env) && s != []
    ensures UncheckedCharges(GeneralPiece(env, s, pes))
  {
    hide Resolve, ReferenceAt;
  }

  lemma UncheckedParameter(env: Env, mode: Mode, s: seq<Byte>, pes: bool)
    requires Unchecked(env) && s != []
    ensures UncheckedCharges(ParameterPiece(env, mode, s, pes))
  {
    hide ReferenceAt;
  }

  /** The bytes written are paid for: they number at most the bytes of the text and the charges together. */
  lemma {:induction false} WrittenIsPaid(env: Env, mode: Mode, s: seq<Byte>, fuel: nat, pes: bool)
    requires Unchecked(env) && Expand(env, mode, s, fuel, pes).Done?
    ensures var r := Expand(env, mode, s, fuel, pes); 0 <= r.cost && |r.out| <= |s| + r.cost
    decreases fuel, |s|
  {
    hide PieceAt;
    if s != [] {
      UncheckedPiece(env, mode, s, pes);
      var p := PieceAt(env, mode, s, pes);
      if p.Flat? {
        WrittenIsPaid(env, mode, s[p.width..], fuel, pes || p.pe);
      } else {
        WrittenIsPaid(env, mode, p.body, fuel - 1, pes || p.pe);
        WrittenIsPaid(env, mode, s[p.width..], fuel, Expand(env, mode, p.body, fuel - 1, pes || p.pe).pes);
      }
    }
  }
}
