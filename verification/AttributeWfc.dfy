/** The walk that looks for what an attribute value must not reach through entity references. */
module AttributeWfc {
  import opened Utf8
  import opened CharRefs
  import opened EntityEscapes
  import opened EntityText
  import opened Names

  type Id = int

  /**
   * The declared general entities. `fatalUndeclared` tells whether a reference to an entity that is not among them
   * is an error.
   */
  datatype Decls = Decls(kind: seq<Kind>, content: seq<seq<Byte>>, names: map<Name, Id>, fatalUndeclared: bool) {
    ghost predicate Valid() {
      |kind| == |content| && forall n :: n in names ==> 0 <= names[n] < |kind|
    }
  }

  datatype Verdict = Clean | LessThan | External | Unparsed | Undeclared

  // ----- one text, byte by byte -----

  /** A literal `<`, or a reference `&name;` that is no character reference. */
  datatype Item = Less | Ref(name: Name)

  predicate IsCharRef(name: Name) {
    name == [] || name[0] == HASH
  }

  ghost predicate NoSemi(s: seq<Byte>, from: int, to: int) {
    forall k :: 0 <= from <= k < to && k < |s| ==> s[k] != SEMI
  }

  /** The bytes of the item stand at position `i`. */
  ghost predicate StandsAt(s: seq<Byte>, item: Item, i: nat) {
    match item
    case Less => i < |s| && s[i] == '<' as int
    case Ref(name) =>
      && name != [] && name[0] != '#' as int && i + |name| + 1 < |s| && s[i] == '&' as int
      && s[i + 1..i + 1 + |name|] == name && ';' as int !in name && s[i + 1 + |name|] == ';' as int
  }

  /** Position `i` lies behind an ampersand with no semicolon between. */
  ghost predicate Hidden(s: seq<Byte>, i: nat) {
    exists j :: 0 <= j < i && j < |s| && s[j] == AMP && NoSemi(s, j + 1, i)
  }

  /** A `<`, or a reference whose name is one. */
  ghost predicate Proper(item: Item) {
    item.Ref? ==> IsName(item.name)
  }

  /** The item stands somewhere in plain view; or, if hidden ones count as well, anywhere. */
  ghost predicate Stands(s: seq<Byte>, item: Item, hiddenToo: bool) {
    exists i: nat {:trigger StandsAt(s, item, i)} ::
      StandsAt(s, item, i) && (!Hidden(s, i) || (hiddenToo && Proper(item)))
  }

  // ----- the scan -----

  function NextSemi(s: seq<Byte>, i: nat): (n: nat)
    requires i <= |s|
    ensures i <= n <= |s| && (n < |s| ==> s[n] == SEMI) && forall k :: i <= k < n ==> s[k] != SEMI
    decreases |s| - i
  {
    if i == |s| || s[i] == SEMI then i else NextSemi(s, i + 1)
  }

  function RefItem(name: Name): seq<Item> {
    if IsCharRef(name) then [] else [Ref(name)]
  }

  /** What the scan finds from `i` on; an ampersand without a semicolon ends it. */
  function Items(s: seq<Byte>, i: nat): seq<Item>
    requires i <= |s|
    decreases |s| - i
  {
    if i == |s| then []
    else if s[i] == LESS then [Less] + Items(s, i + 1)
    else if s[i] != AMP then Items(s, i + 1)
    else
      var semi := NextSemi(s, i + 1);
      if semi == |s| then [] else RefItem(s[i + 1..semi]) + Items(s, semi + 1)
  }

  /** From `i` on the scan looks at position `k` by itself, not as part of a reference. */
  predicate Scanned(s: seq<Byte>, i: nat, k: nat): (r: bool)
    requires i <= |s|
    ensures r ==> i <= k
    decreases |s| - i
  {
    i < |s| && (k == i ||
      if s[i] != AMP then Scanned(s, i + 1, k)
      else NextSemi(s, i + 1) < |s| && Scanned(s, NextSemi(s, i + 1) + 1, k))
  }

  /** What an ampersand hides. */
  lemma BehindAmpersand(s: seq<Byte>, i: nat, semi: nat)
    requires i < semi <= |s| && s[i] == AMP && NoSemi(s, i + 1, semi)
    ensures forall k :: i < k <= semi ==> Hidden(s, k)
    ensures semi < |s| && s[semi] == SEMI ==> !Hidden(s, semi + 1)
  {
    forall k | i < k <= semi ensures Hidden(s, k) {
      assert s[i] == AMP && NoSemi(s, i + 1, k);
    }
  }

  lemma NextInView(s: seq<Byte>, i: nat)
    requires i < |s| && !Hidden(s, i) && s[i] != AMP
    ensures !Hidden(s, i + 1)
  {
    forall j | 0 <= j < i && s[j] == AMP ensures !NoSemi(s, j + 1, i + 1) {
      assert !NoSemi(s, j + 1, i);
    }
  }

  /** The scan looks at a position exactly when the position is in plain view. */
  lemma {:induction false} ScannedExactly(s: seq<Byte>, i: nat, k: nat)
    requires i <= k < |s| && !Hidden(s, i)
    ensures Scanned(s, i, k) <==> !Hidden(s, k)
    decreases |s| - i
  {
    hide Hidden;
    if k > i {
      if s[i] != AMP {
        NextInView(s, i);
        ScannedExactly(s, i + 1, k);
      } else {
        var semi := NextSemi(s, i + 1);
        BehindAmpersand(s, i, semi);
        if semi < k {
          ScannedExactly(s, semi + 1, k);
        }
      }
    }
  }

  ghost predicate StandsFrom(s: seq<Byte>, item: Item, i: nat) {
    exists k: nat {:trigger StandsAt(s, item, k)} :: i <= k && StandsAt(s, item, k) && !Hidden(s, k)
  }

  /** The only reference at an ampersand is the one up to the next semicolon. */
  lemma OneReference(s: seq<Byte>, i: nat, item: Item)
    requires i < |s| && s[i] == AMP
    ensures var semi := NextSemi(s, i + 1);
      StandsAt(s, item, i) <==> semi < |s| && item in RefItem(s[i + 1..semi])
  {
    var semi := NextSemi(s, i + 1);
    if item.Ref? && StandsAt(s, item, i) {
      var name := item.name;
      forall k | i + 1 <= k < i + 1 + |name| ensures s[k] != SEMI {
        assert s[i + 1..i + 1 + |name|][k - i - 1] == s[k];
      }
      assert semi == i + 1 + |name|;
    }
  }

  /** Text from which no item starts can be passed over. */
  lemma FromLater(s: seq<Byte>, item: Item, i: nat, later: nat)
    requires i < later && forall k :: i < k < later ==> !StandsAt(s, item, k) || Hidden(s, k)
    requires !Hidden(s, i)
    ensures StandsFrom(s, item, i) <==> StandsAt(s, item, i) || StandsFrom(s, item, later)
  {
    hide Hidden, StandsAt;
  }

  lemma LessHere(s: seq<Byte>, i: nat, item: Item)
    requires i < |s| && s[i] != AMP
    ensures StandsAt(s, item, i) <==> s[i] == LESS && item == Less
  {
  }

  /** What the scan finds, one round on. */
  lemma InItems(s: seq<Byte>, i: nat, item: Item)
    requires i <= |s|
    ensures item in Items(s, i) <==>
      i < |s| &&
      if s[i] != AMP then (s[i] == LESS && item == Less) || item in Items(s, i + 1)
      else
        var semi := NextSemi(s, i + 1);
        semi < |s| && (item in RefItem(s[i + 1..semi]) || item in Items(s, semi + 1))
  {
  }

  lemma {:induction false} ItemsFrom(s: seq<Byte>, i: nat, item: Item)
    requires i <= |s| && !Hidden(s, i)
    ensures item in Items(s, i) <==> StandsFrom(s, item, i)
    decreases |s| - i
  {
    hide Hidden, StandsFrom, StandsAt, Items, RefItem;
    InItems(s, i, item);
    if i == |s| {
      NothingLeft(s, item, i);
    } else if s[i] != AMP {
      NextInView(s, i);
      ItemsFrom(s, i + 1, item);
      LessHere(s, i, item);
      FromLater(s, item, i, i + 1);
    } else {
      var semi := NextSemi(s, i + 1);
      BehindAmpersand(s, i, semi);
      OneReference(s, i, item);
      FromLater(s, item, i, semi + 1);
      if semi < |s| {
        ItemsFrom(s, semi + 1, item);
      } else {
        NothingLeft(s, item, semi + 1);
      }
    }
  }

  lemma NothingLeft(s: seq<Byte>, item: Item, i: nat)
    requires |s| <= i
    ensures !StandsFrom(s, item, i)
  {
  }

  /** The scan finds exactly the items that stand in plain view. */
  lemma ItemsInView(s: seq<Byte>, item: Item)
    ensures item in Items(s, 0) <==> Stands(s, item, false)
  {
    hide Items;
    ItemsFrom(s, 0, item);
  }

  // ----- well-formed text -----

  /** Text cut into references and what stands between them. */
  datatype Part = Plain(bytes: seq<Byte>) | Reference(name: Name)

  /** What stands between `&#` and `;` in a character reference. */
  predicate IsNumber(name: Name) {
    && 2 <= |name| && name[0] == HASH
    && (AllDigits(name[1..], false) || (3 <= |name| && name[1] == LOWER_X && AllDigits(name[2..], true)))
  }

  /** A reference is by name or by number. */
  ghost predicate WellCut(p: Part) {
    match p
    case Plain(bytes) => AMP !in bytes
    case Reference(name) => IsName(name) || IsNumber(name)
  }

  function PartText(p: Part): seq<Byte> {
    match p
    case Plain(bytes) => bytes
    case Reference(name) => [AMP] + name + [SEMI]
  }

  function Join(parts: seq<Part>): seq<Byte> {
    if parts == [] then [] else PartText(parts[0]) + Join(parts[1..])
  }

  /** Every `<` and every ampersand stands in plain view. */
  ghost predicate Clear(s: seq<Byte>) {
    forall i :: 0 <= i < |s| && (s[i] == AMP || s[i] == LESS) ==> !Hidden(s, i)
  }

  lemma NumberBytes(name: Name, b: Byte)
    requires IsNumber(name) && (b == AMP || b == LESS || b == SEMI)
    ensures b !in name
  {
    forall k | 0 <= k < |name| ensures name[k] != b {
      if k >= 1 && AllDigits(name[1..], false) {
        assert name[k] == name[1..][k - 1];
      } else if k >= 2 {
        assert name[k] == name[2..][k - 2];
      }
    }
  }

  lemma ReferenceBytes(name: Name, b: Byte)
    requires (IsName(name) || IsNumber(name)) && (b == AMP || b == LESS || b == SEMI || (b == HASH && IsName(name)))
    ensures b !in name
  {
    if IsName(name) {
      NameBytes(name, b);
    } else {
      NumberBytes(name, b);
    }
  }

  lemma HiddenBefore(a: seq<Byte>, b: seq<Byte>, i: nat)
    requires i <= |a|
    ensures Hidden(a + b, i) <==> Hidden(a, i)
  {
    var s := a + b;
    assert forall k :: 0 <= k < i ==> s[k] == a[k];
    if Hidden(s, i) {
      var j :| 0 <= j < i && j < |s| && s[j] == AMP && NoSemi(s, j + 1, i);
      assert a[j] == AMP && NoSemi(a, j + 1, i);
    }
    if Hidden(a, i) {
      var j :| 0 <= j < i && j < |a| && a[j] == AMP && NoSemi(a, j + 1, i);
      assert s[j] == AMP && NoSemi(s, j + 1, i);
    }
  }

  /** What is hidden behind text that hides nothing is hidden by what follows it. */
  lemma HiddenBehind(a: seq<Byte>, b: seq<Byte>, i: nat)
    requires !Hidden(a, |a|) && |a| <= i <= |a + b| && Hidden(a + b, i)
    ensures Hidden(b, i - |a|)
  {
    var s := a + b;
    var j :| 0 <= j < i && j < |s| && s[j] == AMP && NoSemi(s, j + 1, i);
    assert forall k :: 0 <= k < |a| ==> a[k] == s[k];
    if j < |a| {
      assert false;
    } else {
      forall k | j - |a| + 1 <= k < i - |a| ensures b[k] != SEMI {
        assert s[k + |a|] == b[k];
      }
      assert b[j - |a|] == AMP && NoSemi(b, j - |a| + 1, i - |a|);
    }
  }

  lemma PartClear(p: Part)
    requires WellCut(p)
    ensures Clear(PartText(p)) && !Hidden(PartText(p), |PartText(p)|)
  {
    var t := PartText(p);
    if p.Reference? {
      ReferenceBytes(p.name, AMP);
      ReferenceBytes(p.name, LESS);
      forall k | 0 < k < |t| ensures t[k] != AMP && t[k] != LESS {
        assert k < |t| - 1 ==> t[k] == p.name[k - 1] && t[k] in p.name;
      }
      assert t[|t| - 1] == SEMI;
    }
  }

  lemma ClearTogether(a: seq<Byte>, b: seq<Byte>)
    requires Clear(a) && !Hidden(a, |a|) && Clear(b) && !Hidden(b, |b|)
    ensures Clear(a + b) && !Hidden(a + b, |a + b|)
  {
    var s := a + b;
    forall i | 0 <= i <= |s| && (i == |s| || s[i] == AMP || s[i] == LESS) ensures !Hidden(s, i) {
      if i < |a| {
        HiddenBefore(a, b, i);
        assert s[i] == a[i];
      } else {
        assert i < |s| ==> s[i] == b[i - |a|];
        if Hidden(s, i) {
          HiddenBehind(a, b, i);
        }
      }
    }
  }

  /** Text whose every ampersand starts a reference by name or number hides nothing. */
  lemma {:induction false} WellFormedIsClear(parts: seq<Part>)
    requires forall p :: p in parts ==> WellCut(p)
    ensures Clear(Join(parts)) && !Hidden(Join(parts), |Join(parts)|)
    decreases |parts|
  {
    hide Clear, Hidden, PartText, WellCut;
    if parts == [] {
      NothingHidden();
    } else {
      WellFormedIsClear(parts[1..]);
      PartClear(parts[0]);
      ClearTogether(PartText(parts[0]), Join(parts[1..]));
    }
  }

  lemma NothingHidden()
    ensures Clear([]) && !Hidden([], 0)
  {
  }

  // ----- the entity graph -----

  predicate Declared(d: Decls, item: Item) {
    item.Ref? && Resolve(item.name).None? && item.name in d.names
  }

  /** What is wrong with an item by itself. */
  function ItemVerdict(d: Decls, item: Item): Verdict
    requires d.Valid()
  {
    if item.Less? then LessThan
    else if Resolve(item.name).Some? then Clean
    else if item.name !in d.names then if d.fatalUndeclared then Undeclared else Clean
    else
      match d.kind[d.names[item.name]]
      case ExternalUnparsed => Unparsed
      case ExternalParsed => External
      case _ => Clean
  }

  /** The item refers to the internal entity `e`. */
  predicate PointsAt(d: Decls, item: Item, e: Id)
    requires d.Valid()
  {
    Declared(d, item) && d.names[item.name] == e && d.kind[e] == InternalGeneral
  }

  ghost predicate Has(d: Decls, t: seq<Byte>, v: Verdict, hiddenToo: bool)
    requires d.Valid()
  {
    exists item {:trigger Stands(t, item, hiddenToo)} :: Stands(t, item, hiddenToo) && ItemVerdict(d, item) == v
  }

  ghost predicate Refers(d: Decls, t: seq<Byte>, e: Id, hiddenToo: bool)
    requires d.Valid()
  {
    exists item {:trigger Stands(t, item, hiddenToo)} :: Stands(t, item, hiddenToo) && PointsAt(d, item, e)
  }

  /** A chain of references from `t` through internal entities. */
  ghost predicate Chain(d: Decls, t: seq<Byte>, path: seq<Id>, hiddenToo: bool)
    requires d.Valid()
  {
    path != [] && Refers(d, t, path[0], hiddenToo) && 0 <= path[0] < |d.kind|
    && forall i {:trigger Follows(d, path, i, hiddenToo)} :: 0 < i < |path| ==> Follows(d, path, i, hiddenToo)
  }

  ghost predicate Follows(d: Decls, path: seq<Id>, i: nat, hiddenToo: bool)
    requires d.Valid() && 0 < i < |path|
  {
    0 <= path[i] < |d.kind| && 0 <= path[i - 1] < |d.kind| && Refers(d, d.content[path[i - 1]], path[i], hiddenToo)
  }

  /** Somewhere along some chain of references from `t`, or in `t` itself, the violation `v` stands. */
  ghost predicate Reaches(d: Decls, t: seq<Byte>, v: Verdict, hiddenToo: bool)
    requires d.Valid()
  {
    Has(d, t, v, hiddenToo) || exists path: seq<Id> :: EndsIn(d, t, path, v, hiddenToo)
  }

  ghost predicate EndsIn(d: Decls, t: seq<Byte>, path: seq<Id>, v: Verdict, hiddenToo: bool)
    requires d.Valid()
  {
    Chain(d, t, path, hiddenToo) && 0 <= path[|path| - 1] < |d.kind|
    && Has(d, d.content[path[|path| - 1]], v, hiddenToo)
  }

  ghost predicate Violates(d: Decls, t: seq<Byte>, hiddenToo: bool)
    requires d.Valid()
  {
    exists v :: v != Clean && Reaches(d, t, v, hiddenToo)
  }

  /** No reference to an external or unparsed entity may stand in a text, and none to no entity where that is fatal. */
  predicate Forbidden(d: Decls, name: Name)
    requires d.Valid()
  {
    && name !in ESCAPES
    && if name in d.names then d.kind[d.names[name]] == ExternalParsed || d.kind[d.names[name]] == ExternalUnparsed
      else d.fatalUndeclared
  }

  /** A `<` stands in the text, or a reference that may not. */
  ghost predicate Wrong(d: Decls, t: seq<Byte>, hiddenToo: bool)
    requires d.Valid()
  {
    || Stands(t, Less, hiddenToo)
    || exists name: Name :: Stands(t, Ref(name), hiddenToo) && Forbidden(d, name)
  }

  ghost predicate LeadsToWrong(d: Decls, t: seq<Byte>, path: seq<Id>, hiddenToo: bool)
    requires d.Valid()
  {
    && Chain(d, t, path, hiddenToo)
    && 0 <= path[|path| - 1] < |d.kind| && Wrong(d, d.content[path[|path| - 1]], hiddenToo)
  }

  /** The verdict on a reference, by the kind of the entity. */
  lemma VerdictExactly(d: Decls, name: Name)
    requires d.Valid()
    ensures var v := ItemVerdict(d, Ref(name));
      && (v == External <==> name !in ESCAPES && name in d.names && d.kind[d.names[name]] == ExternalParsed)
      && (v == Unparsed <==> name !in ESCAPES && name in d.names && d.kind[d.names[name]] == ExternalUnparsed)
      && (v == Undeclared <==> name !in ESCAPES && name !in d.names && d.fatalUndeclared)
      && v != LessThan
  {
    hide Resolve;
    EscapesResolved(name);
  }

  lemma HasOf(d: Decls, t: seq<Byte>, v: Verdict, hiddenToo: bool)
    requires d.Valid()
    ensures Has(d, t, v, hiddenToo) <==>
      (v == LessThan && Stands(t, Less, hiddenToo))
      || (exists name: Name :: Stands(t, Ref(name), hiddenToo) && ItemVerdict(d, Ref(name)) == v)
  {
    hide Stands, Resolve;
    if Has(d, t, v, hiddenToo) {
      var item :| Stands(t, item, hiddenToo) && ItemVerdict(d, item) == v;
    }
    assert ItemVerdict(d, Less) == LessThan;
  }

  lemma WrongExactly(d: Decls, t: seq<Byte>, hiddenToo: bool)
    requires d.Valid()
    ensures Wrong(d, t, hiddenToo) <==> exists v :: v != Clean && Has(d, t, v, hiddenToo)
  {
    hide Has, Stands, ItemVerdict;
    HasOf(d, t, LessThan, hiddenToo);
    HasOf(d, t, External, hiddenToo);
    HasOf(d, t, Unparsed, hiddenToo);
    HasOf(d, t, Undeclared, hiddenToo);
    forall name: Name | Stands(t, Ref(name), hiddenToo)
      ensures ItemVerdict(d, Ref(name)) != Clean <==> Forbidden(d, name)
      ensures ItemVerdict(d, Ref(name)) != LessThan
    {
      VerdictExactly(d, name);
    }
  }

  /** A text refers to the internal entities whose names are declared as such and are none of the five. */
  lemma RefersExactly(d: Decls, t: seq<Byte>, e: Id, hiddenToo: bool)
    requires d.Valid()
    ensures Refers(d, t, e, hiddenToo) <==>
      exists name: Name :: Stands(t, Ref(name), hiddenToo) && name !in ESCAPES && name in d.names &&
        d.names[name] == e && d.kind[e] == InternalGeneral
  {
    hide Stands, Resolve;
    forall name: Name ensures Resolve(name).Some? <==> name in ESCAPES {
      EscapesResolved(name);
    }
    forall name: Name | Stands(t, Ref(name), hiddenToo) && PointsAt(d, Ref(name), e)
      ensures Refers(d, t, e, hiddenToo)
    {
    }
  }

  /** A text violates the constraints when something wrong stands in it, or in a text that it leads to. */
  lemma ViolatesExactly(d: Decls, t: seq<Byte>, hiddenToo: bool)
    requires d.Valid()
    ensures Violates(d, t, hiddenToo) <==>
      Wrong(d, t, hiddenToo) || exists path: seq<Id> :: LeadsToWrong(d, t, path, hiddenToo)
  {
    hide Has, Wrong, Refers;
    WrongExactly(d, t, hiddenToo);
    forall s: seq<Byte> ensures Wrong(d, s, hiddenToo) <==> exists v :: v != Clean && Has(d, s, v, hiddenToo) {
      WrongExactly(d, s, hiddenToo);
    }
    forall path: seq<Id>, v | EndsIn(d, t, path, v, hiddenToo) ensures Reaches(d, t, v, hiddenToo) {
    }
    forall v | Has(d, t, v, hiddenToo) ensures Reaches(d, t, v, hiddenToo) {
    }
    if path: seq<Id> :| LeadsToWrong(d, t, path, hiddenToo) {
      var v :| v != Clean && Has(d, d.content[path[|path| - 1]], v, hiddenToo);
      assert EndsIn(d, t, path, v, hiddenToo);
    }
    if Violates(d, t, hiddenToo) && !Wrong(d, t, hiddenToo) {
      var v :| v != Clean && Reaches(d, t, v, hiddenToo);
      var path: seq<Id> :| EndsIn(d, t, path, v, hiddenToo);
      assert LeadsToWrong(d, t, path, hiddenToo);
    }
  }

  /** A violation reachable from what `t` refers to is reachable from `t`. */
  lemma ReachesOn(d: Decls, t: seq<Byte>, e: Id, v: Verdict, hiddenToo: bool)
    requires d.Valid() && 0 <= e < |d.kind| && Refers(d, t, e, hiddenToo) && Reaches(d, d.content[e], v, hiddenToo)
    ensures Reaches(d, t, v, hiddenToo)
  {
    hide Stands, ItemVerdict, PointsAt, Refers, Has;
    if Has(d, d.content[e], v, hiddenToo) {
      assert EndsIn(d, t, [e], v, hiddenToo);
    } else {
      var path: seq<Id> :| EndsIn(d, d.content[e], path, v, hiddenToo);
      var longer := [e] + path;
      forall i | 0 < i < |longer| ensures Follows(d, longer, i, hiddenToo) {
        assert i > 1 ==> Follows(d, path, i - 1, hiddenToo);
      }
      assert longer[|longer| - 1] == path[|path| - 1];
      assert EndsIn(d, t, longer, v, hiddenToo);
    }
  }

  /** Texts that are clean and refer only to entities with such texts reach nothing. */
  ghost predicate Closed(d: Decls, t: seq<Byte>, safe: iset<Id>, hiddenToo: bool)
    requires d.Valid()
  {
    && (forall v :: Has(d, t, v, hiddenToo) ==> v == Clean)
    && (forall e :: Refers(d, t, e, hiddenToo) ==> e in safe)
  }

  lemma {:induction false} ChainSafe(d: Decls, t: seq<Byte>, path: seq<Id>, safe: iset<Id>, i: nat, hiddenToo: bool)
    requires d.Valid() && Chain(d, t, path, hiddenToo) && i < |path| && Closed(d, t, safe, hiddenToo)
    requires forall e :: e in safe && 0 <= e < |d.kind| ==> Closed(d, d.content[e], safe, hiddenToo)
    ensures 0 <= path[i] < |d.kind| && path[i] in safe
  {
    hide Stands, ItemVerdict, PointsAt, Refers, Has;
    if i > 0 {
      ChainSafe(d, t, path, safe, i - 1, hiddenToo);
      assert Follows(d, path, i, hiddenToo);
    }
  }

  lemma ClosedReachesNothing(d: Decls, t: seq<Byte>, safe: iset<Id>, hiddenToo: bool)
    requires d.Valid() && Closed(d, t, safe, hiddenToo)
    requires forall e :: e in safe && 0 <= e < |d.kind| ==> Closed(d, d.content[e], safe, hiddenToo)
    ensures !Violates(d, t, hiddenToo)
  {
    hide Stands, ItemVerdict, PointsAt, Refers, Has;
    forall v | v != Clean ensures !Reaches(d, t, v, hiddenToo) {
      forall path: seq<Id> ensures !EndsIn(d, t, path, v, hiddenToo) {
        if Chain(d, t, path, hiddenToo) {
          ChainSafe(d, t, path, safe, |path| - 1, hiddenToo);
        }
      }
    }
  }

  ghost function Safe(d: Decls, hiddenToo: bool): iset<Id>
    requires d.Valid()
  {
    iset e: Id | 0 <= e < |d.kind| && !Violates(d, d.content[e], hiddenToo)
  }

  /** What reaches nothing is clean and refers only to entities that reach nothing. */
  lemma SafeIsClosed(d: Decls, t: seq<Byte>, hiddenToo: bool)
    requires d.Valid() && !Violates(d, t, hiddenToo)
    ensures Closed(d, t, Safe(d, hiddenToo), hiddenToo)
  {
    hide Stands, ItemVerdict, PointsAt, Refers, Chain;
    forall v | Has(d, t, v, hiddenToo) ensures v == Clean {
      assert Reaches(d, t, v, hiddenToo);
    }
    forall e | Refers(d, t, e, hiddenToo) ensures e in Safe(d, hiddenToo) {
      ReferredSafe(d, t, e, hiddenToo);
    }
  }

  lemma ReferredSafe(d: Decls, t: seq<Byte>, e: Id, hiddenToo: bool)
    requires d.Valid() && !Violates(d, t, hiddenToo) && Refers(d, t, e, hiddenToo)
    ensures e in Safe(d, hiddenToo)
  {
    hide Reaches;
    ReferredDeclared(d, t, e, hiddenToo);
    forall v | v != Clean ensures !Reaches(d, d.content[e], v, hiddenToo) {
      if Reaches(d, d.content[e], v, hiddenToo) {
        ReachesOn(d, t, e, v, hiddenToo);
      }
    }
  }

  lemma ReferredDeclared(d: Decls, t: seq<Byte>, e: Id, hiddenToo: bool)
    requires d.Valid() && Refers(d, t, e, hiddenToo)
    ensures 0 <= e < |d.kind|
  {
    hide Stands;
  }

  // ----- what the walk cannot see -----

  /** Hiding does not matter: some `<` is in plain view, or there is none, and what is referenced is so in plain view. */
  ghost predicate Sighted(t: seq<Byte>) {
    Stands(t, Less, false) || (LESS !in t && RefsSighted(t))
  }

  ghost predicate RefsSighted(t: seq<Byte>) {
    forall name :: Stands(t, Ref(name), true) && Resolve(name).None? ==> Stands(t, Ref(name), false)
  }

  ghost predicate AllSighted(d: Decls) {
    forall e :: 0 <= e < |d.content| ==> Sighted(d.content[e])
  }

  lemma LessStands(t: seq<Byte>)
    ensures Stands(t, Less, true) <==> LESS in t
  {
    if LESS in t {
      var i :| 0 <= i < |t| && t[i] == LESS;
      assert StandsAt(t, Less, i);
    }
  }

  lemma ClearSighted(t: seq<Byte>)
    requires Clear(t)
    ensures Sighted(t)
  {
    hide Hidden;
    if LESS in t {
      var i :| 0 <= i < |t| && t[i] == LESS;
      assert StandsAt(t, Less, i);
    }
  }

  /** Text that is made of references by name or number, and of what stands between them, is sighted. */
  lemma WellFormedSighted(parts: seq<Part>)
    requires forall p :: p in parts ==> WellCut(p)
    ensures Sighted(Join(parts))
  {
    hide Clear, Sighted;
    WellFormedIsClear(parts);
    ClearSighted(Join(parts));
  }

  /** In sight, the hidden items change nothing. */
  lemma SightedClosed(d: Decls, t: seq<Byte>, safe: iset<Id>)
    requires d.Valid() && Sighted(t) && Closed(d, t, safe, false)
    ensures Closed(d, t, safe, true)
  {
    hide Stands, Resolve;
    LessStands(t);
    assert Stands(t, Less, false) ==> Has(d, t, LessThan, false) by {
      assert ItemVerdict(d, Less) == LessThan;
    }
    forall item | Stands(t, item, true)
      ensures ItemVerdict(d, item) == Clean && forall e :: PointsAt(d, item, e) ==> e in safe
    {
      if item.Ref? && Resolve(item.name).None? {
        assert Stands(t, Ref(item.name), false);
        assert Has(d, t, ItemVerdict(d, item), false);
      }
    }
  }

  /** What is in plain view stands there in any case. */
  lemma ClosedInView(d: Decls, t: seq<Byte>, safe: iset<Id>)
    requires d.Valid() && Closed(d, t, safe, true)
    ensures Closed(d, t, safe, false)
  {
    hide ItemVerdict, PointsAt, StandsAt;
    forall item | Stands(t, item, false) ensures Stands(t, item, true) {
    }
    forall v | Has(d, t, v, false) ensures Has(d, t, v, true) {
    }
    forall e | Refers(d, t, e, false) ensures Refers(d, t, e, true) {
    }
  }

  /** Where every text is sighted, the violations in plain view are all there are. */
  lemma SightedSame(d: Decls, t: seq<Byte>)
    requires d.Valid() && AllSighted(d) && Sighted(t)
    ensures Violates(d, t, false) <==> Violates(d, t, true)
  {
    hide Violates, Closed, Sighted;
    if !Violates(d, t, false) {
      var safe := Safe(d, false);
      SafeIsClosed(d, t, false);
      SightedClosed(d, t, safe);
      forall e | e in safe && 0 <= e < |d.kind| ensures Closed(d, d.content[e], safe, true) {
        SafeIsClosed(d, d.content[e], false);
        SightedClosed(d, d.content[e], safe);
      }
      ClosedReachesNothing(d, t, safe, true);
    } else if !Violates(d, t, true) {
      var safe := Safe(d, true);
      SafeIsClosed(d, t, true);
      ClosedInView(d, t, safe);
      forall e | e in safe && 0 <= e < |d.kind| ensures Closed(d, d.content[e], safe, false) {
        SafeIsClosed(d, d.content[e], true);
        ClosedInView(d, d.content[e], safe);
      }
      ClosedReachesNothing(d, t, safe, false);
    }
  }

  lemma NothingStands(item: Item, hiddenToo: bool)
    ensures !Stands([], item, hiddenToo)
  {
  }

  /** A table under which the walk misses a violation of `t`. */
  lemma Unsighted(t: seq<Byte>) returns (d: Decls)
    requires !Sighted(t)
    ensures d.Valid() && AllSighted(d) && !Violates(d, t, false) && Violates(d, t, true)
  {
    hide Stands, Resolve;
    LessStands(t);
    var item := Less;
    d := Decls([], [], map[], false);
    if LESS !in t {
      var name :| Stands(t, Ref(name), true) && Resolve(name).None? && !Stands(t, Ref(name), false);
      item := Ref(name);
      d := Decls([ExternalParsed], [[]], map[name := 0], false);
      forall n: Name ensures !Stands([], Ref(n), true) {
        NothingStands(Ref(n), true);
      }
    }
    Missed(d, t, item);
  }

  /** Nothing but the hidden item is wrong with `t`. */
  lemma Missed(d: Decls, t: seq<Byte>, item: Item)
    requires d.Valid() && Stands(t, item, true) && !Stands(t, item, false) && ItemVerdict(d, item) != Clean
    requires forall other :: Stands(t, other, false) ==> ItemVerdict(d, other) == Clean
    requires forall other, e :: Stands(t, other, false) ==> !PointsAt(d, other, e)
    ensures !Violates(d, t, false) && Violates(d, t, true)
  {
    hide Stands, ItemVerdict, PointsAt;
    ClosedReachesNothing(d, t, iset{}, false);
    assert Has(d, t, ItemVerdict(d, item), true);
    assert Reaches(d, t, ItemVerdict(d, item), true);
  }

  /** The walk decides the violations of `t`, whatever is declared in sighted texts, exactly when `t` is sighted. */
  lemma SightedExactly(t: seq<Byte>)
    ensures Sighted(t) <==>
      forall d: Decls :: d.Valid() && AllSighted(d) ==> (Violates(d, t, false) <==> Violates(d, t, true))
  {
    hide Violates, Sighted;
    if Sighted(t) {
      forall d: Decls | d.Valid() && AllSighted(d) ensures Violates(d, t, false) <==> Violates(d, t, true) {
        SightedSame(d, t);
      }
    } else {
      var d := Unsighted(t);
    }
  }

  /** `&#<;`, and `& <` */
  const UNSEEN_LESS: set<seq<Byte>> := {[AMP, HASH, LESS, SEMI], [AMP, 0x20, LESS]}

  /** An input at which the walk misses a `<`, directly and through another entity. */
  lemma LessMissed(d: Decls, e: Id, name: Name, t: seq<Byte>)
    requires d.Valid() && 0 <= e < |d.kind| && d.kind[e] == InternalGeneral && d.content[e] in UNSEEN_LESS
    requires IsName(name) && Resolve(name).None? && name in d.names && d.names[name] == e && t == [AMP] + name + [SEMI]
    ensures LESS in d.content[e] && !Violates(d, d.content[e], false) && Violates(d, d.content[e], true)
    ensures !Violates(d, t, false) && Violates(d, t, true)
  {
    hide Violates, Resolve;
    var s := d.content[e];
    UnseenLess(s);
    Missed(d, s, Less) by {
      hide Stands;
    }
    assert Refers(d, t, e, true) && Closed(d, t, iset{e}, false) by {
      hide Stands;
      OnlyReference(name, t);
    }
    assert Closed(d, s, iset{}, false) by {
      hide Stands;
    }
    ClosedReachesNothing(d, t, iset{e}, false);
    ViolatesOn(d, t, e);
  }

  lemma ViolatesOn(d: Decls, t: seq<Byte>, e: Id)
    requires d.Valid() && 0 <= e < |d.kind| && Refers(d, t, e, true) && Violates(d, d.content[e], true)
    ensures Violates(d, t, true)
  {
    hide Reaches, Refers;
    var v :| v != Clean && Reaches(d, d.content[e], v, true);
    ReachesOn(d, t, e, v, true);
  }

  lemma UnseenLess(t: seq<Byte>)
    requires t in UNSEEN_LESS
    ensures Stands(t, Less, true) && forall item :: !Stands(t, item, false)
  {
    LessStands(t);
    forall item ensures !Stands(t, item, false) {
      ItemsInView(t, item);
      assert t[1] != SEMI && t[2] != SEMI && (|t| == 4 ==> t[3] == SEMI);
      assert NextSemi(t, 1) == 3;
      assert Items(t, 0) == [];
    }
  }

  lemma OnlyReference(name: Name, t: seq<Byte>)
    requires IsName(name) && t == [AMP] + name + [SEMI]
    ensures forall item :: Stands(t, item, false) <==> item == Ref(name)
    ensures Stands(t, Ref(name), true)
  {
    ReferenceBytes(name, SEMI);
    ReferenceBytes(name, HASH);
    assert t[1..1 + |name|] == name;
    var semi := NextSemi(t, 1);
    assert t[|t| - 1] == SEMI;
    assert forall k :: 1 <= k < |t| - 1 ==> t[k] == name[k - 1];
    assert Items(t, 0) == [Ref(name)];
    forall item ensures Stands(t, item, false) <==> item == Ref(name) {
      ItemsInView(t, item);
    }
    assert Stands(t, Ref(name), false);
  }

  // ----- the walk -----

  /** Every item is clean and points into `safe` if anywhere. */
  ghost predicate Handled(d: Decls, items: seq<Item>, safe: iset<Id>)
    requires d.Valid()
  {
    forall k {:trigger items[k]} :: 0 <= k < |items| ==>
      ItemVerdict(d, items[k]) == Clean && forall e :: PointsAt(d, items[k], e) ==> e in safe
  }

  lemma HandledClosed(d: Decls, t: seq<Byte>, safe: iset<Id>)
    requires d.Valid() && Handled(d, Items(t, 0), safe)
    ensures Closed(d, t, safe, false)
  {
    hide Items, Stands, ItemVerdict, PointsAt;
    forall item | Stands(t, item, false)
      ensures ItemVerdict(d, item) == Clean && forall e :: PointsAt(d, item, e) ==> e in safe
    {
      ItemsInView(t, item);
      var k :| 0 <= k < |Items(t, 0)| && Items(t, 0)[k] == item;
    }
  }

  lemma HandledMore(d: Decls, a: seq<Item>, b: seq<Item>, safe: iset<Id>, safe': iset<Id>)
    requires d.Valid() && Handled(d, a, safe) && Handled(d, b, safe') && safe <= safe'
    ensures Handled(d, a + b, safe')
  {
    hide ItemVerdict, PointsAt;
    forall k | 0 <= k < |a + b|
      ensures ItemVerdict(d, (a + b)[k]) == Clean && forall e :: PointsAt(d, (a + b)[k], e) ==> e in safe'
    {
      var item := if k < |a| then a[k] else b[k - |a|];
      assert (a + b)[k] == item;
    }
  }

  lemma ClosedMore(d: Decls, t: seq<Byte>, safe: iset<Id>, safe': iset<Id>)
    requires d.Valid() && Closed(d, t, safe, false) && safe <= safe'
    ensures Closed(d, t, safe', false)
  {
    hide ItemVerdict, PointsAt, Refers, Has;
  }

  /** What can be reached from `t` can be reached from `root`. */
  ghost predicate Below(d: Decls, root: seq<Byte>, t: seq<Byte>)
    requires d.Valid()
  {
    forall v :: Reaches(d, t, v, false) ==> Reaches(d, root, v, false)
  }

  lemma BelowReferred(d: Decls, root: seq<Byte>, t: seq<Byte>, e: Id)
    requires d.Valid() && Below(d, root, t) && Refers(d, t, e, false)
    ensures 0 <= e < |d.kind| && Below(d, root, d.content[e])
  {
    hide Reaches;
    ReferredDeclared(d, t, e, false);
    forall v | Reaches(d, d.content[e], v, false) ensures Reaches(d, root, v, false) {
      ReachesOn(d, t, e, v, false);
    }
  }

  lemma ReachedBelow(d: Decls, root: seq<Byte>, t: seq<Byte>, v: Verdict)
    requires d.Valid() && Below(d, root, t) && Has(d, t, v, false) && v != Clean
    ensures Reaches(d, root, v, false) && Violates(d, root, false)
  {
    hide Has;
    assert Reaches(d, t, v, false);
  }

  lemma LessSeen(d: Decls, s: seq<Byte>, seen: seq<Item>, i: nat)
    requires d.Valid() && i < |s| && s[i] == LESS && Items(s, 0) == seen + Items(s, i)
    ensures Has(d, s, LessThan, false)
  {
    hide Stands;
    assert Items(s, 0)[|seen|] == Less;
    ItemsInView(s, Less);
    assert ItemVerdict(d, Less) == LessThan;
  }

  lemma SeenPast(s: seq<Byte>, seen: seq<Item>, i: nat)
    requires i < |s| && s[i] != LESS && s[i] != AMP && Items(s, 0) == seen + Items(s, i)
    ensures Items(s, 0) == seen + Items(s, i + 1)
  {
  }

  lemma SeenMore(s: seq<Byte>, seen: seq<Item>, i: nat)
    requires i < |s| && s[i] == AMP && Items(s, 0) == seen + Items(s, i)
    ensures var semi := NextSemi(s, i + 1);
      if semi == |s| then Items(s, 0) == seen
      else Items(s, 0) == (seen + RefItem(s[i + 1..semi])) + Items(s, semi + 1)
  {
    var semi := NextSemi(s, i + 1);
    if semi < |s| {
      Regroup(seen, RefItem(s[i + 1..semi]), Items(s, semi + 1));
    }
  }

  lemma Regroup(seen: seq<Item>, a: seq<Item>, b: seq<Item>)
    ensures seen + (a + b) == (seen + a) + b
  {
  }

  lemma SeenAll(s: seq<Byte>, seen: seq<Item>)
    requires Items(s, 0) == seen + Items(s, |s|)
    ensures Items(s, 0) == seen
  {
  }

  ghost function UpTo(n: nat): (r: set<Id>)
    ensures forall e :: e in r <==> 0 <= e < n
  {
    if n == 0 then {} else UpTo(n - 1) + {n - 1}
  }

  datatype Flags = Flags(validated: bool, checked: bool) {
    /** The flags include the target: both in the document body, `validated` alone within the DTD. */
    predicate Include(body: bool) {
      validated && (body ==> checked)
    }

    function With(body: bool): Flags {
      Flags(true, checked || body)
    }
  }

  /** The work list with the entities met so far; `checked` keeps them in the order they were met. */
  datatype Work = Work(stack: seq<seq<Byte>>, visited: set<Id>, checked: seq<Id>)

  class Checker {
    const d: Decls
    var flags: seq<Flags>

    constructor (decls: Decls)
      requires decls.Valid()
      ensures d == decls && Valid() && Trusted(true) && Trusted(false)
      ensures forall e :: 0 <= e < |flags| ==> flags[e] == Flags(false, false)
    {
      d := decls;
      flags := seq(|decls.kind|, i => Flags(false, false));
    }

    ghost predicate Valid()
      reads this
    {
      d.Valid() && |flags| == |d.kind|
    }

    /** The entities that carry the flags. */
    ghost function Flagged(body: bool): iset<Id>
      reads this
    {
      iset e: Id | 0 <= e < |flags| && flags[e].Include(body)
    }

    /** An entity that carries the flags reaches no violation, and refers only to such entities. */
    ghost predicate Trusted(body: bool)
      requires Valid()
      reads this
    {
      forall e :: e in Flagged(body) ==> e in Safe(d, false) && Closed(d, d.content[e], Flagged(body), false)
    }

    ghost function Known(w: Work, body: bool): iset<Id>
      reads this
    {
      (iset e | e in w.visited) + Flagged(body)
    }

    ghost predicate InRange(w: Work)
      requires d.Valid()
      reads this
    {
      (forall e :: e in w.visited ==> 0 <= e < |d.kind|) && (forall e :: e in w.checked <==> e in w.visited)
    }

    ghost predicate Pushed(visited: set<Id>, t: seq<Byte>, text: seq<Byte>)
      requires d.Valid()
      reads this
    {
      exists e :: e in visited && Refers(d, t, e, false) && 0 <= e < |d.kind| && text == d.content[e]
    }

    /** `w'` has gone on from `w` with what the text `t` refers to. */
    ghost predicate Grown(body: bool, w: Work, w': Work, t: seq<Byte>)
      requires d.Valid()
      reads this
    {
      && InRange(w') && w.visited <= w'.visited && w.stack <= w'.stack
      && (forall e :: e in w'.visited && e !in w.visited ==> e !in Flagged(body))
      && |w'.stack| - |w.stack| == |w'.visited| - |w.visited|
      && (forall e :: e in w'.visited && e !in w.visited ==> d.content[e] in w'.stack)
      && w.checked <= w'.checked
      && (forall k :: |w.stack| <= k < |w'.stack| ==> Pushed(w'.visited, t, w'.stack[k]))
    }

    /** One reference: the verdict on it, and the entity put on the work list unless it is known. */
    method VisitRef(t: seq<Byte>, name: Name, body: bool, w: Work) returns (v: Verdict, w': Work)
      requires Valid() && Trusted(body) && InRange(w) && Ref(name) in Items(t, 0)
      ensures v != Clean ==> Has(d, t, v, false)
      ensures v == Clean ==> Grown(body, w, w', t) && Handled(d, [Ref(name)], Known(w', body))
    {
      hide Items, Stands, Reaches, Violates, Resolve;
      v, w' := Clean, w;
      ghost var item := Ref(name);
      ItemsInView(t, item);
      assert v != ItemVerdict(d, item) ==> Has(d, t, ItemVerdict(d, item), false);
      if Resolve(name).Some? {
        return;
      }
      if name !in d.names {
        v := if d.fatalUndeclared then Undeclared else Clean;
        return;
      }
      var e := d.names[name];
      if d.kind[e] == ExternalUnparsed {
        return Unparsed, w;
      }
      if d.kind[e] == ExternalParsed {
        return External, w;
      }
      if d.kind[e] != InternalGeneral || e in w.visited || flags[e].Include(body) {
        return;
      }
      w' := Work(w.stack + [d.content[e]], w.visited + {e}, w.checked + [e]);
      assert PointsAt(d, item, e);
      assert Refers(d, t, e, false);
    }

    /** One text from the work list, up to its end or the first violation. */
    method ScanText(s: seq<Byte>, body: bool, w: Work) returns (v: Verdict, w': Work)
      requires Valid() && Trusted(body) && InRange(w)
      ensures v != Clean ==> Has(d, s, v, false)
      ensures v == Clean ==> Grown(body, w, w', s) && Closed(d, s, Known(w', body), false)
    {
      hide Items, ItemVerdict, PointsAt, Has, Violates, Refers, Resolve, Closed, Safe;
      w' := w;
      var i := 0;
      ghost var seen: seq<Item> := [];
      assert [] + Items(s, 0) == Items(s, 0);
      while i < |s|
        invariant 0 <= i <= |s| && Items(s, 0) == seen + Items(s, i)
        invariant Grown(body, w, w', s) && Handled(d, seen, Known(w', body))
        decreases |s| - i
      {
        if s[i] == LESS {
          LessSeen(d, s, seen, i);
          return LessThan, w';
        }
        if s[i] != AMP {
          SeenPast(s, seen, i);
          i := i + 1;
          continue;
        }
        var semi := NextSemi(s, i + 1);
        SeenMore(s, seen, i);
        if semi == |s| {
          HandledClosed(d, s, Known(w', body));
          return Clean, w';
        }
        var name := s[i + 1..semi];
        i := semi + 1;
        if IsCharRef(name) {
          assert seen + [] == seen;
          continue;
        }
        v, w', seen := ScanReference(s, name, body, w, w', seen, i);
        if v != Clean {
          return;
        }
      }
      v := Clean;
      SeenAll(s, seen);
      HandledClosed(d, s, Known(w', body));
    }

    /** One reference that has been read; `w` is the work list before the text was begun, `seen` what came before in it. */
    method ScanReference(s: seq<Byte>, name: Name, body: bool, ghost w: Work, w1: Work, ghost seen: seq<Item>, i: nat)
      returns (v: Verdict, w2: Work, ghost seen': seq<Item>)
      requires Valid() && Trusted(body) && i <= |s| && Items(s, 0) == (seen + [Ref(name)]) + Items(s, i)
      requires InRange(w) && Grown(body, w, w1, s) && Handled(d, seen, Known(w1, body))
      ensures v != Clean ==> Has(d, s, v, false)
      ensures v == Clean ==> Grown(body, w, w2, s) && Handled(d, seen', Known(w2, body)) && Items(s, 0) == seen' + Items(s, i)
    {
      hide Items, ItemVerdict, PointsAt, Has, Violates, Refers, Resolve, Safe;
      seen' := seen + [Ref(name)];
      assert Items(s, 0)[|seen|] == Ref(name);
      v, w2 := VisitRef(s, name, body, w1);
      if v == Clean {
        HandledMore(d, seen, [Ref(name)], Known(w1, body), Known(w2, body));
        GrownTwice(body, w, w1, w2, s);
      }
    }

    lemma GrownTwice(body: bool, w: Work, w1: Work, w2: Work, t: seq<Byte>)
      requires d.Valid() && Grown(body, w, w1, t) && Grown(body, w1, w2, t)
      ensures Grown(body, w, w2, t)
    {
      hide Refers;
      forall k | |w.stack| <= k < |w2.stack| ensures Pushed(w2.visited, t, w2.stack[k]) {
        if k < |w1.stack| {
          assert w2.stack[k] == w1.stack[k] && Pushed(w1.visited, t, w1.stack[k]);
        }
      }
      forall e | e in w2.visited && e !in w.visited ensures d.content[e] in w2.stack {
        if e in w1.visited {
          var k :| 0 <= k < |w1.stack| && w1.stack[k] == d.content[e];
          assert w2.stack[k] == w1.stack[k];
        }
      }
    }

    /** The invariant of the walk: what is still to be scanned lies below `root`, and all else is closed. */
    ghost predicate Walking(body: bool, w: Work, root: seq<Byte>)
      requires d.Valid()
      reads this
    {
      && InRange(w)
      && (forall k :: 0 <= k < |w.stack| ==> Below(d, root, w.stack[k]))
      && (root in w.stack || Closed(d, root, Known(w, body), false))
      && (forall e :: e in w.visited ==> d.content[e] in w.stack || Closed(d, d.content[e], Known(w, body), false))
    }

    /** The top of the work list has been scanned. */
    lemma WalkedOn(body: bool, w: Work, w': Work, root: seq<Byte>)
      requires d.Valid() && Walking(body, w, root) && w.stack != []
      requires var n := |w.stack| - 1;
        Grown(body, w.(stack := w.stack[..n]), w', w.stack[n]) && Closed(d, w.stack[n], Known(w', body), false)
      ensures Walking(body, w', root)
    {
      hide Refers, Reaches, Closed, Safe;
      var n := |w.stack| - 1;
      var t := w.stack[n];
      var popped := w.stack[..n];
      assert Known(w, body) <= Known(w', body);
      forall k | 0 <= k < |w'.stack| ensures Below(d, root, w'.stack[k]) {
        if k < n {
          assert w'.stack[k] == popped[k] == w.stack[k];
        } else {
          assert Pushed(w'.visited, t, w'.stack[k]);
          var e :| e in w'.visited && Refers(d, t, e, false) && 0 <= e < |d.kind| && w'.stack[k] == d.content[e];
          BelowReferred(d, root, t, e);
        }
      }
      forall u | u in w.stack ensures u in w'.stack || u == t {
        var k :| 0 <= k < |w.stack| && w.stack[k] == u;
        if k < n {
          assert popped[k] == w'.stack[k];
        }
      }
      forall e | e in w'.visited ensures d.content[e] in w'.stack || Closed(d, d.content[e], Known(w', body), false) {
        if e in w.visited && d.content[e] !in w.stack {
          ClosedMore(d, d.content[e], Known(w, body), Known(w', body));
        }
      }
      if root !in w.stack {
        ClosedMore(d, root, Known(w, body), Known(w', body));
      }
    }

    /** Only the root is to be scanned. */
    lemma WalkStarts(body: bool, w: Work, root: seq<Byte>)
      requires d.Valid() && InRange(w) && w.stack == [root] && forall e :: e in w.visited ==> d.content[e] == root
      ensures Walking(body, w, root)
    {
      hide Refers, Reaches, Closed, Safe;
      assert w.stack[0] == root;
    }

    lemma Shrinks(w: Work, w': Work, all: set<Id>)
      requires w.visited <= w'.visited <= all && w.stack != []
      requires |w'.stack| - (|w.stack| - 1) == |w'.visited| - |w.visited|
      ensures |all - w'.visited| < |all - w.visited| || (w'.visited == w.visited && |w'.stack| < |w.stack|)
    {
      if w.visited != w'.visited {
        assert all - w'.visited < all - w.visited;
        SubsetSmaller(all - w'.visited, all - w.visited);
      }
    }

    lemma SubsetSmaller(a: set<Id>, b: set<Id>)
      requires a < b
      ensures |a| < |b|
    {
      assert a + (b - a) == b;
    }

    /** When nothing is left to scan, nothing is reached from the root or from what was visited. */
    lemma WalkDone(body: bool, w: Work, root: seq<Byte>)
      requires Valid() && Trusted(body) && Walking(body, w, root) && w.stack == []
      ensures !Violates(d, root, false) && Closed(d, root, Known(w, body), false)
      ensures forall e :: e in w.visited ==> e in Safe(d, false) && Closed(d, d.content[e], Known(w, body), false)
    {
      hide Refers, Reaches, Closed, Violates;
      var known := Known(w, body);
      forall e | e in known && 0 <= e < |d.kind| ensures Closed(d, d.content[e], known, false) {
        if e !in w.visited {
          ClosedMore(d, d.content[e], Flagged(body), known);
        }
      }
      ClosedReachesNothing(d, root, known, false);
      forall e | e in w.visited ensures e in Safe(d, false) {
        ClosedReachesNothing(d, d.content[e], known, false);
      }
    }

    lemma WalkingRange(body: bool, w: Work, root: seq<Byte>)
      requires d.Valid() && Walking(body, w, root)
      ensures InRange(w)
    {
    }

    lemma WalkingOn(body: bool, w: Work, root: seq<Byte>)
      requires d.Valid() && Walking(body, w, root) && w.stack != []
      ensures InRange(w) && InRange(w.(stack := w.stack[..|w.stack| - 1])) && Below(d, root, w.stack[|w.stack| - 1])
    {
    }

    lemma GrownVisits(body: bool, w: Work, w': Work, t: seq<Byte>)
      requires d.Valid() && Grown(body, w, w', t)
      ensures w.visited <= w'.visited && w.checked <= w'.checked && InRange(w')
      ensures |w'.stack| - |w.stack| == |w'.visited| - |w.visited|
      ensures forall e :: e in w'.visited && e !in w.visited ==> e !in Flagged(body)
    {
    }

    lemma WalkedKnown(body: bool, w: Work)
      requires d.Valid() && InRange(w)
      ensures Walked(w.checked, body) == Known(w, body)
    {
      hide Flagged;
      assert forall e :: e in Walked(w.checked, body) <==> e in Known(w, body);
    }

    /** The entities that were walked, with those that carry the flags. */
    ghost function Walked(checked: seq<Id>, body: bool): iset<Id>
      reads this
    {
      (iset e | e in checked) + Flagged(body)
    }

    lemma SameVerdict(t: seq<Byte>)
      requires d.Valid()
      ensures AllSighted(d) && Sighted(t) ==> (Violates(d, t, false) <==> Violates(d, t, true))
    {
      hide Violates, Sighted, AllSighted;
      if AllSighted(d) && Sighted(t) {
        SightedSame(d, t);
      }
    }

    /** `walkAttrValueWFC`. `start` holds the entity whose text `root` is, or nothing. */
    method Walk(root: seq<Byte>, body: bool, start: seq<Id>) returns (v: Verdict, checked: seq<Id>)
      requires Valid() && Trusted(body)
      requires forall e :: e in start ==> 0 <= e < |d.kind| && d.content[e] == root
      ensures v == Clean <==> !Violates(d, root, false)
      ensures AllSighted(d) && Sighted(root) ==> (v == Clean <==> !Violates(d, root, true))
      ensures v != Clean ==> Reaches(d, root, v, false)
      ensures v == Clean ==> start <= checked && Closed(d, root, Walked(checked, body), false)
      ensures v == Clean ==> forall e :: e in checked ==>
        e in Safe(d, false) && Closed(d, d.content[e], Walked(checked, body), false)
      ensures v == Clean ==> forall e :: e in checked ==> e in start || e !in Flagged(body)
    {
      hide Refers, Reaches, Has, Closed, Safe, Flagged, Violates, Sighted, AllSighted, Below, Grown, Walking, Trusted;
      SameVerdict(root);
      var w := Work([root], (set e | e in start), start);
      ghost var all := UpTo(|d.kind|);
      v := Clean;
      WalkStarts(body, w, root);
      while w.stack != []
        invariant v == Clean && Walking(body, w, root) && w.visited <= all && start <= w.checked
        invariant forall e :: e in w.visited ==> e in start || e !in Flagged(body)
        decreases |all - w.visited|, |w.stack|
      {
        ghost var before := w;
        WalkingOn(body, w, root);
        var s := w.stack[|w.stack| - 1];
        w := w.(stack := w.stack[..|w.stack| - 1]);
        v, w := ScanText(s, body, w);
        if v != Clean {
          checked := w.checked;
          ReachedBelow(d, root, s, v);
          return;
        }
        WalkedOn(body, before, w, root);
        GrownVisits(body, before.(stack := before.stack[..|before.stack| - 1]), w, s);
        Shrinks(before, w, all);
      }
      WalkDone(body, w, root);
      WalkingRange(body, w, root);
      checked := w.checked;
      WalkedKnown(body, w);
    }

    /** Sets the flags of the entities that were walked. */
    method Mark(checked: seq<Id>, body: bool)
      requires Valid() && Trusted(body)
      requires forall e :: e in checked ==> e in Safe(d, false) && Closed(d, d.content[e], Walked(checked, body), false)
      modifies this
      ensures Valid() && Trusted(body) && Flagged(body) == old(Walked(checked, body))
      ensures forall e, b :: 0 <= e < |flags| && old(flags[e]).Include(b) ==> flags[e].Include(b)
    {
      hide Violates, Closed;
      for i := 0 to |checked|
        invariant Valid() && Flagged(body) == (iset e | e in checked[..i]) + old(Flagged(body))
        invariant forall e, b :: 0 <= e < |flags| && old(flags[e]).Include(b) ==> flags[e].Include(b)
      {
        assert checked[i] in checked;
        assert checked[..i + 1] == checked[..i] + [checked[i]];
        ghost var before := Flagged(body);
        flags := flags[checked[i] := flags[checked[i]].With(body)];
        assert forall e :: e in Flagged(body) <==> e in before || e == checked[i];
        assert forall e :: e in checked[..i + 1] <==> e in checked[..i] || e == checked[i];
      }
      assert checked[..|checked|] == checked;
      forall e | e in Flagged(body) ensures e in Safe(d, false) && Closed(d, d.content[e], Flagged(body), false) {
        if e !in checked {
          ClosedMore(d, d.content[e], old(Flagged(body)), Flagged(body));
        }
      }
    }

    /** Whatever is reached from a text that refers only to flagged entities is flagged. */
    lemma ReachedFlagged(t: seq<Byte>, body: bool)
      requires Valid() && Trusted(body) && Closed(d, t, Flagged(body), false)
      ensures forall path: seq<Id> :: Chain(d, t, path, false) ==> path[|path| - 1] in Flagged(body)
    {
      hide Closed, Safe, Refers;
      forall path: seq<Id> | Chain(d, t, path, false) ensures path[|path| - 1] in Flagged(body) {
        ChainSafe(d, t, path, Flagged(body), |path| - 1, false);
      }
    }

    /** `checkEntityInAttValue` */
    method CheckEntity(e: Id, body: bool) returns (v: Verdict)
      requires Valid() && Trusted(body) && 0 <= e < |d.kind|
      modifies this
      ensures Valid() && Trusted(body)
      ensures v == Clean <==> !Violates(d, d.content[e], false)
      ensures AllSighted(d) ==> (v == Clean <==> !Violates(d, d.content[e], true))
      ensures if v == Clean then flags[e].Include(body) else Reaches(d, d.content[e], v, false) && flags == old(flags)
      ensures v == Clean ==> forall path: seq<Id> :: Chain(d, d.content[e], path, false) ==>
        path[|path| - 1] in Flagged(body)
      ensures forall x, b :: 0 <= x < |flags| && old(flags[x]).Include(b) ==> flags[x].Include(b)
    {
      hide Violates, Reaches, Safe, Sighted, Closed, Chain;
      var checked;
      v, checked := Walk(d.content[e], body, [e]);
      if v == Clean {
        assert checked[0] == e && e in checked;
        Mark(checked, body);
        ReachedFlagged(d.content[e], body);
      }
    }

    /** `checkAttrValueStringWFC` */
    method CheckText(t: seq<Byte>, body: bool) returns (v: Verdict)
      requires Valid() && Trusted(body)
      modifies this
      ensures Valid() && Trusted(body)
      ensures v == Clean <==> !Violates(d, t, false)
      ensures AllSighted(d) && Sighted(t) ==> (v == Clean <==> !Violates(d, t, true))
      ensures v != Clean ==> Reaches(d, t, v, false) && flags == old(flags)
      ensures v == Clean ==> forall path: seq<Id> :: Chain(d, t, path, false) ==> path[|path| - 1] in Flagged(body)
    {
      hide Violates, Reaches, Safe, Sighted, Closed, Chain;
      var checked;
      v, checked := Walk(t, body, []);
      if v == Clean {
        Mark(checked, body);
        ReachedFlagged(t, body);
      }
    }

    /**
     * A series of references from attribute values in the body: the flags left by one never change the verdict on
     * another, and no entity is walked for twice. `walked` holds those that were.
     */
    method CheckReferences(refs: seq<Id>) returns (v: Verdict, walked: seq<Id>)
      requires Valid() && Trusted(true) && forall k :: 0 <= k < |refs| ==> 0 <= refs[k] < |d.kind|
      modifies this
      ensures Valid() && Trusted(true)
      ensures v == Clean <==> forall k :: 0 <= k < |refs| ==> !Violates(d, d.content[refs[k]], false)
      ensures forall i, j :: 0 <= i < j < |walked| ==> walked[i] != walked[j]
      ensures forall e :: e in walked ==> e in refs && 0 <= e < |flags| && !old(flags[e]).Include(true)
    {
      hide Violates, Safe, Trusted, Flags.Include;
      v, walked := Clean, [];
      for k := 0 to |refs|
        invariant Valid() && Trusted(true) && v == Clean
        invariant forall j :: 0 <= j < k ==> !Violates(d, d.content[refs[j]], false)
        invariant forall i, j :: 0 <= i < j < |walked| ==> walked[i] != walked[j]
        invariant forall e :: e in walked ==>
          e in refs && 0 <= e < |flags| && !old(flags[e]).Include(true) && flags[e].Include(true)
        invariant forall x :: 0 <= x < |flags| && old(flags[x]).Include(true) ==> flags[x].Include(true)
      {
        var walks;
        v, walks := CheckOnce(refs[k]);
        if walks {
          walked := walked + [refs[k]];
        }
        if v != Clean {
          return;
        }
      }
    }

    /** One reference: an entity that carries the flags is not walked. */
    method CheckOnce(e: Id) returns (v: Verdict, walks: bool)
      requires Valid() && Trusted(true) && 0 <= e < |d.kind|
      modifies this
      ensures Valid() && Trusted(true) && walks == !old(flags[e]).Include(true)
      ensures v == Clean <==> !Violates(d, d.content[e], false)
      ensures v == Clean ==> flags[e].Include(true)
      ensures forall x :: 0 <= x < |flags| && old(flags[x]).Include(true) ==> flags[x].Include(true)
    {
      hide Violates, Reaches, Safe, Closed, Trusted, Flagged, Chain;
      FlaggedClean(e);
      v, walks := Clean, !flags[e].Include(true);
      if walks {
        v := CheckEntity(e, true);
      }
    }

    lemma FlaggedClean(e: Id)
      requires Valid() && Trusted(true) && 0 <= e < |d.kind|
      ensures flags[e].Include(true) ==> !Violates(d, d.content[e], false)
    {
      hide Violates, Closed;
      assert flags[e].Include(true) ==> e in Flagged(true);
    }

    /** `validateAttributeDefaultsWFC`: defaults without a reference have been checked when they were read. */
    method ValidateDefaults(values: seq<seq<Byte>>) returns (v: Verdict)
      requires Valid() && Trusted(true)
      modifies this
      ensures Valid() && Trusted(true)
      ensures v == Clean <==> forall k :: 0 <= k < |values| && AMP in values[k] ==> !Violates(d, values[k], false)
    {
      hide Violates, Reaches, Safe, Closed, Trusted, Flagged, Chain;
      v := Clean;
      for k := 0 to |values|
        invariant Valid() && Trusted(true) && v == Clean
        invariant forall j :: 0 <= j < k && AMP in values[j] ==> !Violates(d, values[j], false)
      {
        if AMP in values[k] {
          v := CheckText(values[k], true);
          if v != Clean {
            return;
          }
        }
      }
    }
  }
}
