/** The running budget for expansion, and the one comparison it amounts to. */
module EntityAccounting {
  import opened Utf8
  import opened CharRefs
  import opened EntityText
  import opened Names
  import opened EntityExpansion
  import opened Wrappers

  const MAX_INT64 := 0x7FFF_FFFF_FFFF_FFFF
  const ALLOWED_EXPANSION := 1_000_000
  const HARD_CEILING := 1_000_000_000

  predicate IsInt64(n: int) {
    -MAX_INT64 - 1 <= n <= MAX_INT64
  }

  /** What a machine keeps of `n`. */
  function Wrap64(n: int): (r: int)
    ensures IsInt64(r) && (IsInt64(n) ==> r == n)
  {
    (n + MAX_INT64 + 1) % (2 * MAX_INT64 + 2) - MAX_INT64 - 1
  }

  function SaturatedAdd(a: int, b: int): (r: int)
    ensures b >= 0 ==> r == if a + b <= MAX_INT64 then a + b else MAX_INT64
  {
    if a > MAX_INT64 - b then MAX_INT64 else a + b
  }

  /** On machine integers the sum saturates as intended exactly when the second operand is not negative. */
  lemma SaturatedAddExact(a: int, b: int)
    requires IsInt64(a) && IsInt64(b)
    ensures var machine := if a > Wrap64(MAX_INT64 - b) then MAX_INT64 else Wrap64(a + b);
      var clamped := if a + b > MAX_INT64 then MAX_INT64 else if a + b < -MAX_INT64 - 1 then -MAX_INT64 - 1 else a + b;
      (machine == clamped <==> b >= 0) && (b >= 0 ==> machine == SaturatedAdd(a, b))
  {
    var m := 2 * MAX_INT64 + 2;
    if b < 0 {
      assert Wrap64(MAX_INT64 - b) == MAX_INT64 - b - m;
      assert a + b < -MAX_INT64 - 1 ==> Wrap64(a + b) == a + b + m;
    }
  }

  // ----- the limits -----

  /** `account` is off for the second decoding of an entity value. `consumed` is the size of the input. */
  datatype Budget = Budget(account: bool, maxAmpl: nat, consumed: nat)

  /** `entityCheckLimits` */
  predicate Within(b: Budget, size: int) {
    size <= HARD_CEILING
    && (b.maxAmpl == 0 || size <= ALLOWED_EXPANSION || size / b.maxAmpl <= (if b.consumed == 0 then 1 else b.consumed))
  }

  /** The largest size the limits admit. */
  function Ceiling(b: Budget): (c: int)
    ensures 0 < c <= HARD_CEILING
  {
    if b.maxAmpl == 0 then HARD_CEILING
    else
      var ratio := ((if b.consumed == 0 then 1 else b.consumed) + 1) * b.maxAmpl - 1;
      var most := if ratio < ALLOWED_EXPANSION then ALLOWED_EXPANSION else ratio;
      if most < HARD_CEILING then most else HARD_CEILING
  }

  lemma QuotientAtMost(n: nat, m: nat, c: nat)
    requires m > 0
    ensures n / m <= c <==> n <= (c + 1) * m - 1
  {
    var q, r := n / m, n % m;
    assert n == q * m + r;
    if q <= c {
      Times(q, c, m);
    } else {
      Times(c + 1, q, m);
    }
  }

  lemma Times(a: int, b: int, m: nat)
    requires a <= b
    ensures a * m <= b * m
  {
  }

  lemma WithinExact(b: Budget, size: nat)
    ensures Within(b, size) <==> size <= Ceiling(b)
  {
    if b.maxAmpl > 0 {
      QuotientAtMost(size, b.maxAmpl, if b.consumed == 0 then 1 else b.consumed);
    }
  }

  /** `entityCheck`: the size after the charge; nothing once it is over the limits. */
  function Charged(b: Budget, size: int, charge: Charge): (r: Option<int>)
  {
    if charge.Free? || !b.account then Some(size)
    else
      var bytes := if charge.ent.Some? && charge.ent.value.checked then charge.ent.value.expandedSize else charge.n;
      var total := SaturatedAdd(SaturatedAdd(size, bytes), FIXED_COST);
      if Within(b, total) then Some(total) else None
  }

  /**
   * A charge with the numbers written out: the recorded size of an entity marked checked or else the bytes, and 20 for
   * the reference; over a thousand million it fails, and over a million where it is more than the ratio of the input.
   */
  lemma ChargedLiterally(b: Budget, size: nat, ent: Option<Entity>, n: nat)
    requires var bytes := if ent.Some? && ent.value.checked then ent.value.expandedSize else n;
      b.account && bytes >= 0 && size + bytes + 20 <= 0x7FFF_FFFF_FFFF_FFFF
    ensures var total := size + (if ent.Some? && ent.value.checked then ent.value.expandedSize else n) + 20;
      Charged(b, size, Due(ent, n)) ==
        if total > 1_000_000_000 then None
        else if b.maxAmpl > 0 && total > 1_000_000 && total / b.maxAmpl > (if b.consumed == 0 then 1 else b.consumed)
        then None
        else Some(total)
  {
  }

  /** What a reference to a general entity is charged for, before and after its text. */
  lemma GeneralCharges(env: Env, mode: Mode, s: seq<Byte>, name: Name, pes: bool, m: nat)
    requires mode.refs && ['&' as int] + name + [';' as int] <= s && IsName(name) && !Refused(name, env.maxNameLength)
    requires Resolve(name).None? && name in env.general && env.general[name].kind == InternalGeneral
    requires env.general[name].content != [] && !(env.inAttribute && LESS in env.general[name].content)
    ensures var p, ent := PieceAt(env, mode, s, pes), env.general[name];
      && p.Inner? && p.width == |name| + 2 && p.body == ent.content && p.ent == ent
      && Price(p.charge) == (if ent.checked then ent.expandedSize else 0) + 20
      && Price(Due(Some(p.ent), m)) == (if ent.checked then ent.expandedSize else m) + 20
  {
    hide ReferenceAt, IsName, Refused, Resolve, IsNCNameStartChar, IsNCNameChar;
    NameBytes(name, HASH) by {
      NoHash();
    }
    var t := ['&' as int] + name + [';' as int];
    assert s[0] == t[0] && s[1] == t[1] == name[0];
    ReferenceAtExact(s, env.maxNameLength, name);
  }

  /** A reference to an entity not marked checked costs what its text costs, the bytes that come of it, and 40. */
  lemma GeneralCost(env: Env, mode: Mode, name: Name, fuel: nat, pes: bool)
    requires mode.refs && IsName(name) && !Refused(name, env.maxNameLength) && fuel > 0
    requires Resolve(name).None? && name in env.general && env.general[name].kind == InternalGeneral
    requires env.general[name].content != [] && !(env.inAttribute && LESS in env.general[name].content)
    requires !env.general[name].checked && Expand(env, mode, env.general[name].content, fuel - 1, pes).Done?
    ensures var inner := Expand(env, mode, env.general[name].content, fuel - 1, pes);
      Expand(env, mode, ['&' as int] + name + [';' as int], fuel, pes)
        == Done(inner.out, inner.cost + |inner.out| + 40, inner.pes)
  {
    hide PieceAt, IsName, Refused, Resolve, Price;
    var s := ['&' as int] + name + [';' as int];
    var inner := Expand(env, mode, env.general[name].content, fuel - 1, pes);
    GeneralCharges(env, mode, s, name, pes, |inner.out|);
    NoParameter(env, mode, s, pes, name);
    assert s[|name| + 2..] == [] && inner.out + [] == inner.out;
  }

  lemma NoParameter(env: Env, mode: Mode, s: seq<Byte>, pes: bool, name: Name)
    requires ['&' as int] + name + [';' as int] <= s && !PieceAt(env, mode, s, pes).Malformed?
    ensures !PieceAt(env, mode, s, pes).pe
  {
    assert s[0] == (['&' as int] + name + [';' as int])[0];
  }

  lemma NoHash()
    ensures !ContinuesName(HASH)
  {
  }

  /** What a reference to a parameter entity is charged for; its own length counts, declared or not. */
  lemma ParameterCharges(env: Env, mode: Mode, s: seq<Byte>, name: Name, pes: bool, m: nat)
    requires mode.peRefs && ['%' as int] + name + [';' as int] <= s && IsName(name) && !Refused(name, env.maxNameLength)
    requires !PieceAt(env, mode, s, pes).Malformed?
    ensures var p := PieceAt(env, mode, s, pes);
      && p.pe && p.width == |name| + 2
      && (name !in env.parameter ==> p.Flat? && p.bytes == [] && Price(p.charge) == |name| + 22)
      && (name in env.parameter ==>
          var ent := env.parameter[name];
          && p.Inner? && p.ent == ent && Price(p.charge) == (if ent.checked then ent.expandedSize else |name| + 2) + 20
          && Price(Due(Some(p.ent), m)) == (if ent.checked then ent.expandedSize else m) + 20)
  {
    hide ReferenceAt, IsName, Refused;
    var t := ['%' as int] + name + [';' as int];
    assert s[0] == t[0];
    ReferenceAtExact(s, env.maxNameLength, name);
  }

  // ----- decoding on a budget -----

  datatype Config = Config(env: Env, mode: Mode, budget: Budget)

  /** `size` is the running total, `pes` whether a parameter entity has been referenced. */
  datatype State = State(size: int, pes: bool)

  datatype Outcome = Failed | Finished(out: seq<Byte>, st: State)

  function Prefix(out: seq<Byte>, rest: Outcome): Outcome {
    if rest.Failed? then Failed else Finished(out + rest.out, rest.st)
  }

  /** The decoding loop, with every charge checked where it is made. */
  function DecodeText(c: Config, s: seq<Byte>, fuel: nat, st: State): Outcome
    decreases fuel, |s|
  {
    if fuel == 0 then Failed
    else if s == [] then Finished([], st)
    else
      var p := PieceAt(c.env, c.mode, s, st.pes);
      if p.Malformed? then Failed
      else
        var paid := Charged(c.budget, st.size, p.charge);
        if paid.None? then Failed
        else
          var st1 := State(paid.value, st.pes || p.pe);
          if p.Flat? then Prefix(p.bytes, DecodeText(c, s[p.width..], fuel, st1))
          else
            var inner := DecodeText(c, p.body, fuel - 1, st1);
            if inner.Failed? then Failed
            else
              var paid2 := Charged(c.budget, inner.st.size, Due(Some(p.ent), |inner.out|));
              if paid2.None? then Failed
              else Prefix(inner.out, DecodeText(c, s[p.width..], fuel, inner.st.(size := paid2.value)))
  }

  /** The same with one comparison at the end: the total of all charges against the ceiling. */
  function Settled(b: Budget, size: int, e: Expansion): Outcome {
    if e.Fail? then Failed
    else if !b.account || e.cost == 0 then Finished(e.out, State(size, e.pes))
    else if size + e.cost > Ceiling(b) then Failed
    else Finished(e.out, State(size + e.cost, e.pes))
  }

  /** No recorded size is negative. */
  ghost predicate Costed(env: Env) {
    && (forall n :: n in env.general ==> env.general[n].expandedSize >= 0)
    && (forall n :: n in env.parameter ==> env.parameter[n].expandedSize >= 0)
  }

  ghost predicate CostedCharges(p: Piece) {
    p.Malformed? ||
    (Price(p.charge) >= 0 && (p.charge.Due? ==> Price(p.charge) >= FIXED_COST) && (p.Inner? ==> p.ent.expandedSize >= 0))
  }

  lemma CostedPiece(env: Env, mode: Mode, s: seq<Byte>, pes: bool)
    requires Costed(env) && s != []
    ensures CostedCharges(PieceAt(env, mode, s, pes))
  {
    hide CharRefPiece, GeneralPiece, ParameterPiece;
    CostedGeneral(env, s, pes);
    CostedParameter(env, mode, s, pes);
  }

  lemma CostedGeneral(env: Env, s: seq<Byte>, pes: bool)
    requires Costed(env) && s != []
    ensures CostedCharges(GeneralPiece(env, s, pes))
  {
    hide Resolve, ReferenceAt;
  }

  lemma CostedParameter(env: Env, mode: Mode, s: seq<Byte>, pes: bool)
    requires Costed(env) && s != []
    ensures CostedCharges(ParameterPiece(env, mode, s, pes))
  {
    hide ReferenceAt;
  }

  lemma {:induction false} CostNonNegative(env: Env, mode: Mode, s: seq<Byte>, fuel: nat, pes: bool)
    requires Costed(env) && Expand(env, mode, s, fuel, pes).Done?
    ensures Expand(env, mode, s, fuel, pes).cost >= 0
    decreases fuel, |s|
  {
    hide PieceAt;
    if s != [] {
      CostedPiece(env, mode, s, pes);
      var p := PieceAt(env, mode, s, pes);
      if p.Flat? {
        CostNonNegative(env, mode, s[p.width..], fuel, pes || p.pe);
      } else {
        CostNonNegative(env, mode, p.body, fuel - 1, pes || p.pe);
        CostNonNegative(env, mode, s[p.width..], fuel, Expand(env, mode, p.body, fuel - 1, pes || p.pe).pes);
      }
    }
  }

  /** A charge goes through exactly when the new total is at most the ceiling. */
  lemma ChargedExact(b: Budget, size: nat, charge: Charge)
    requires size <= MAX_INT64 && Price(charge) >= 0
    requires charge.Due? ==> Price(charge) >= FIXED_COST
    ensures Charged(b, size, charge) ==
      if !b.account || Price(charge) == 0 then Some(size)
      else if size + Price(charge) > Ceiling(b) then None
      else Some(size + Price(charge))
  {
    if charge.Due? {
      WithinExact(b, SaturatedAdd(SaturatedAdd(size, Price(charge) - FIXED_COST), FIXED_COST));
    }
  }

  /** What a charge leaves of the size, if it goes through. */
  function Pay(b: Budget, size: int, cost: int): Option<int> {
    if !b.account || cost == 0 then Some(size) else if size + cost > Ceiling(b) then None else Some(size + cost)
  }

  lemma SettledAfter(b: Budget, size: nat, out: seq<Byte>, cost: nat, rest: Expansion)
    requires rest.Done? ==> rest.cost >= 0
    ensures Settled(b, size, After(out, cost, rest)) ==
      var paid := Pay(b, size, cost);
      if paid.None? then Failed else Prefix(out, Settled(b, paid.value, rest))
  {
  }

  lemma PayThrice(b: Budget, size: nat, c1: nat, c2: nat, c3: nat)
    ensures Pay(b, size, c1 + c2 + c3) ==
      var paid1 := Pay(b, size, c1);
      if paid1.None? then None
      else
        var paid2 := Pay(b, paid1.value, c2);
        if paid2.None? then None else Pay(b, paid2.value, c3)
  {
    hide Ceiling;
  }

  lemma ChargePaid(b: Budget, size: nat, charge: Charge)
    requires size <= MAX_INT64 && Price(charge) >= 0 && (charge.Due? ==> Price(charge) >= FIXED_COST)
    ensures Charged(b, size, charge) == Pay(b, size, Price(charge))
    ensures Charged(b, size, charge).Some? ==> 0 <= Charged(b, size, charge).value <= MAX_INT64
  {
    ChargedExact(b, size, charge);
  }

  /** What decoding leaves of the size is what the costs leave. */
  lemma SettledPaid(b: Budget, size: nat, e: Expansion)
    requires size <= MAX_INT64 && (e.Done? ==> e.cost >= 0)
    ensures Settled(b, size, e).Finished? <==> e.Done? && Pay(b, size, e.cost).Some?
    ensures Settled(b, size, e).Finished? ==>
      && 0 <= Settled(b, size, e).st.size <= MAX_INT64
      && Settled(b, size, e) == Finished(e.out, State(Pay(b, size, e.cost).value, e.pes))
  {
  }

  /** Checking every charge comes to one check of the total; the decoded bytes are those of the expansion. */
  lemma {:induction false} DecodeExact(c: Config, s: seq<Byte>, fuel: nat, st: State)
    requires Costed(c.env) && 0 <= st.size <= MAX_INT64
    ensures DecodeText(c, s, fuel, st) == Settled(c.budget, st.size, Expand(c.env, c.mode, s, fuel, st.pes))
    decreases fuel, |s|, 1
  {
    hide PieceAt, Price, Charged, Ceiling;
    if fuel > 0 && s != [] {
      var p := PieceAt(c.env, c.mode, s, st.pes);
      if p.Flat? {
        FlatExact(c, s, fuel, st);
      } else if p.Inner? {
        InnerExact(c, s, fuel, st);
      }
    }
  }

  lemma {:induction false} FlatExact(c: Config, s: seq<Byte>, fuel: nat, st: State)
    requires Costed(c.env) && 0 <= st.size <= MAX_INT64 && fuel > 0 && s != [] && PieceAt(c.env, c.mode, s, st.pes).Flat?
    ensures DecodeText(c, s, fuel, st) == Settled(c.budget, st.size, Expand(c.env, c.mode, s, fuel, st.pes))
    decreases fuel, |s|, 0
  {
    hide PieceAt, Price, Charged, Ceiling, Settled;
    var p := PieceAt(c.env, c.mode, s, st.pes);
    CostedPiece(c.env, c.mode, s, st.pes);
    ChargePaid(c.budget, st.size, p.charge);
    var rest := Expand(c.env, c.mode, s[p.width..], fuel, st.pes || p.pe);
    if rest.Done? {
      CostNonNegative(c.env, c.mode, s[p.width..], fuel, st.pes || p.pe);
    }
    SettledAfter(c.budget, st.size, p.bytes, Price(p.charge), rest);
    var paid := Charged(c.budget, st.size, p.charge);
    if paid.Some? {
      DecodeExact(c, s[p.width..], fuel, State(paid.value, st.pes || p.pe));
    }
  }

  lemma {:induction false} InnerExact(c: Config, s: seq<Byte>, fuel: nat, st: State)
    requires Costed(c.env) && 0 <= st.size <= MAX_INT64 && fuel > 0 && s != [] && PieceAt(c.env, c.mode, s, st.pes).Inner?
    ensures DecodeText(c, s, fuel, st) == Settled(c.budget, st.size, Expand(c.env, c.mode, s, fuel, st.pes))
    decreases fuel, |s|, 0
  {
    hide PieceAt, Price, Charged, Ceiling, Settled;
    var b, p := c.budget, PieceAt(c.env, c.mode, s, st.pes);
    CostedPiece(c.env, c.mode, s, st.pes);
    ChargePaid(b, st.size, p.charge);
    var paid := Charged(b, st.size, p.charge);
    var inner := Expand(c.env, c.mode, p.body, fuel - 1, st.pes || p.pe);
    if inner.Done? {
      CostNonNegative(c.env, c.mode, p.body, fuel - 1, st.pes || p.pe);
      var last := Due(Some(p.ent), |inner.out|);
      var rest := Expand(c.env, c.mode, s[p.width..], fuel, inner.pes);
      if rest.Done? {
        CostNonNegative(c.env, c.mode, s[p.width..], fuel, inner.pes);
      }
      DuePrice(p.ent, |inner.out|);
      SettledAfter(b, st.size, inner.out, InnerCost(p, inner), rest);
      PayThrice(b, st.size, Price(p.charge), inner.cost, Price(last));
      if paid.Some? {
        SettledPaid(b, paid.value, inner);
        DecodeExact(c, p.body, fuel - 1, State(paid.value, st.pes || p.pe));
        var after := Settled(b, paid.value, inner);
        if after.Finished? {
          ChargePaid(b, after.st.size, last);
          var paid2 := Charged(b, after.st.size, last);
          if paid2.Some? {
            DecodeExact(c, s[p.width..], fuel, State(paid2.value, inner.pes));
          }
        }
      }
    } else {
      SettledPaid(b, st.size, inner);
      if paid.Some? {
        DecodeExact(c, p.body, fuel - 1, State(paid.value, st.pes || p.pe));
        SettledPaid(b, paid.value, inner);
      }
    }
  }

  lemma DuePrice(ent: Entity, n: nat)
    requires ent.expandedSize >= 0
    ensures Price(Due(Some(ent), n)) >= FIXED_COST
  {
  }

  // ----- what the budget bounds -----

  /**
   * For entities not yet marked checked, what is written is at most the text and the growth of the running total, and
   * the total never passes the ceiling.
   */
  lemma OutputBounded(c: Config, s: seq<Byte>, fuel: nat, st: State)
    requires Costed(c.env) && Unchecked(c.env) && c.budget.account && 0 <= st.size <= MAX_INT64
    requires DecodeText(c, s, fuel, st).Finished?
    ensures var r := DecodeText(c, s, fuel, st);
      && st.size <= r.st.size && (r.st.size == st.size || r.st.size <= Ceiling(c.budget))
      && |r.out| <= |s| + (r.st.size - st.size)
      && (|r.out| <= |s| || |r.out| <= |s| + Ceiling(c.budget) - st.size)
  {
    hide PieceAt, DecodeText, Expand, Ceiling;
    DecodeExact(c, s, fuel, st);
    WrittenIsPaid(c.env, c.mode, s, fuel, st.pes);
  }
}
