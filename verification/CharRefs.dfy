/** Character references: two scanners over machine integers, and the production they both follow. */
module CharRefs {
  import opened Utf8
  import opened Wrappers

  newtype int32 = x: int | -0x8000_0000 <= x < 0x8000_0000

  // ----- characters -----

  /** Production 2 of XML 1.0 and of XML 1.1. */
  predicate IsChar(r: int, xml11: bool) {
    (if xml11 then 1 <= r <= 0xD7FF else r == 0x9 || r == 0xA || r == 0xD || 0x20 <= r <= 0xD7FF)
    || 0xE000 <= r <= 0xFFFD || 0x10000 <= r <= MAX_RUNE
  }

  predicate IsXMLCharValue(c: int32) {
    if c < 0x100 then 0x9 <= c <= 0xA || c == 0xD || 0x20 <= c
    else 0x100 <= c <= 0xD7FF || 0xE000 <= c <= 0xFFFD || 0x10000 <= c <= 0x10FFFF
  }

  predicate IsXML11CharValue(c: int32) {
    if c == 0 then false
    else if c < 0x100 then true
    else 0x100 <= c <= 0xD7FF || 0xE000 <= c <= 0xFFFD || 0x10000 <= c <= 0x10FFFF
  }

  // ----- the production -----

  const AMP := '&' as int
  const HASH := '#' as int
  const SEMI := ';' as int
  const LOWER_X := 'x' as int

  predicate IsDigit(c: Byte, hex: bool) {
    '0' as int <= c <= '9' as int || (hex && ('a' as int <= c <= 'f' as int || 'A' as int <= c <= 'F' as int))
  }

  function DigitValue(c: Byte): (v: int)
    requires IsDigit(c, true)
    ensures 0 <= v < 16 && (IsDigit(c, false) ==> v < 10)
  {
    if c <= '9' as int then c - '0' as int else if c <= 'F' as int then c - 'A' as int + 10 else c - 'a' as int + 10
  }

  predicate AllDigits(ds: seq<Byte>, hex: bool) {
    forall i :: 0 <= i < |ds| ==> IsDigit(ds[i], hex)
  }

  /** The number the digits write, of any length. */
  function Numeral(ds: seq<Byte>, hex: bool): (n: nat)
    requires AllDigits(ds, hex)
  {
    if ds == [] then 0
    else Numeral(ds[..|ds| - 1], hex) * (if hex then 16 else 10) + DigitValue(ds[|ds| - 1])
  }

  function Opener(hex: bool): seq<Byte> {
    if hex then [AMP, HASH, LOWER_X] else [AMP, HASH]
  }

  /** Production 66 with its well-formedness constraint: `s` starts with a reference, written with `digits`. */
  ghost predicate Spells(s: seq<Byte>, hex: bool, digits: seq<Byte>, xml11: bool) {
    digits != [] && AllDigits(digits, hex) && Opener(hex) + digits + [SEMI] <= s && IsChar(Numeral(digits, hex), xml11)
  }

  datatype CharRef = CharRef(r: int, width: nat)

  // ----- reading -----

  /** The position of the first semicolon, or the length. */
  function SemiAt(s: seq<Byte>): (n: nat)
    ensures n <= |s| && (n < |s| ==> s[n] == SEMI) && forall i :: 0 <= i < n ==> s[i] != SEMI
  {
    if s == [] || s[0] == SEMI then 0 else 1 + SemiAt(s[1..])
  }

  function Body(body: seq<Byte>, hex: bool, xml11: bool): (v: Option<CharRef>) {
    var n := SemiAt(body);
    if n == 0 || n == |body| || !AllDigits(body[..n], hex) || !IsChar(Numeral(body[..n], hex), xml11) then None
    else Some(CharRef(Numeral(body[..n], hex), |Opener(hex)| + n + 1))
  }

  /** What both scanners compute. */
  function Reference(s: seq<Byte>, xml11: bool): (v: Option<CharRef>) {
    if Opener(true) <= s then Body(s[3..], true, xml11)
    else if Opener(false) <= s then Body(s[2..], false, xml11)
    else None
  }

  lemma BodySpelled(s: seq<Byte>, hex: bool, digits: seq<Byte>, xml11: bool)
    requires Spells(s, hex, digits, xml11)
    ensures Body(s[|Opener(hex)|..], hex, xml11) ==
      Some(CharRef(Numeral(digits, hex), |Opener(hex)| + |digits| + 1))
  {
    var k := |Opener(hex)|;
    var body := s[k..];
    var p := Opener(hex) + digits + [SEMI];
    assert |p| == k + |digits| + 1 && p[k + |digits|] == SEMI;
    assert body[|digits|] == SEMI by {
      assert s[k + |digits|] == p[k + |digits|];
    }
    forall i | 0 <= i < |digits| ensures body[i] == digits[i] {
      assert s[k + i] == p[k + i] == digits[i];
    }
    assert body[..|digits|] == digits;
    assert SemiAt(body) == |digits|;
  }

  /** Every spelling is read. */
  lemma SpelledRead(s: seq<Byte>, hex: bool, digits: seq<Byte>, xml11: bool)
    requires Spells(s, hex, digits, xml11)
    ensures Reference(s, xml11) == Some(CharRef(Numeral(digits, hex), |Opener(hex)| + |digits| + 1))
  {
    BodySpelled(s, hex, digits, xml11);
    var p := Opener(hex) + digits + [SEMI];
    var k := |Opener(hex)|;
    assert p[..k] == Opener(hex) && s[..k] == p[..k];
    if !hex {
      assert s[2] == p[2] && p[2] == digits[0];
      assert s[2] != LOWER_X;
    }
  }

  /** And whatever is read is a spelling. */
  lemma ReadSpelled(s: seq<Byte>, xml11: bool) returns (hex: bool, digits: seq<Byte>)
    requires Reference(s, xml11).Some?
    ensures Spells(s, hex, digits, xml11)
  {
    hex := Opener(true) <= s;
    var k := |Opener(hex)|;
    var body := s[k..];
    var n := SemiAt(body);
    digits := body[..n];
    Bracketed(s, k, n);
  }

  lemma Bracketed(s: seq<Byte>, k: nat, n: nat)
    requires k + n < |s| && s[k..][n] == SEMI
    ensures s[..k] + s[k..][..n] + [SEMI] <= s
  {
    assert s[..k] + s[k..][..n] + [SEMI] == s[..k + n + 1];
  }

  /** Reading is exact: a reference is read exactly when one is spelled, with its value and its length. */
  lemma ReferenceExact(s: seq<Byte>, xml11: bool)
    ensures Reference(s, xml11).Some? <==> exists hex, digits: seq<Byte> :: Spells(s, hex, digits, xml11)
    ensures forall hex, digits: seq<Byte> :: Spells(s, hex, digits, xml11) ==>
      Reference(s, xml11) == Some(CharRef(Numeral(digits, hex), |Opener(hex)| + |digits| + 1))
  {
    forall hex, digits: seq<Byte> | Spells(s, hex, digits, xml11)
      ensures Reference(s, xml11) == Some(CharRef(Numeral(digits, hex), |Opener(hex)| + |digits| + 1))
    {
      SpelledRead(s, hex, digits, xml11);
    }
    if Reference(s, xml11).Some? {
      var hex, digits := ReadSpelled(s, xml11);
    }
  }

  /** A reference is never shorter than the UTF-8 form of what it stands for. */
  lemma NeverShorter(s: seq<Byte>, xml11: bool)
    requires Reference(s, xml11).Some?
    ensures var v := Reference(s, xml11).value;
      IsScalar(v.r) && 4 <= v.width <= |s| && |Encode(v.r)| <= v.width
  {
  }

  // ----- the scanners -----

  lemma {:induction false} NumeralGrows(ds: seq<Byte>, k: nat, hex: bool)
    requires AllDigits(ds, hex) && k <= |ds|
    ensures Numeral(ds[..k], hex) <= Numeral(ds, hex)
  {
    if k == |ds| {
      assert ds[..k] == ds;
    } else {
      var init := ds[..|ds| - 1];
      NumeralGrows(init, k, hex);
      assert init[..k] == ds[..k];
      assert Numeral(init, hex) <= Numeral(ds, hex);
    }
  }

  /** A prefix that cannot be completed. */
  lemma Hopeless(body: seq<Byte>, k: nat, hex: bool, xml11: bool)
    requires k < |body| && SEMI !in body[..k + 1]
    requires !IsDigit(body[k], hex) || (AllDigits(body[..k + 1], hex) && Numeral(body[..k + 1], hex) > MAX_RUNE)
    ensures Body(body, hex, xml11).None?
  {
    var n := SemiAt(body);
    forall i | 0 <= i <= k ensures body[i] != SEMI {
      assert body[..k + 1][i] == body[i];
    }
    if AllDigits(body[..n], hex) {
      assert body[..n][k] == body[k];
      NumeralGrows(body[..n], k + 1, hex);
      assert body[..n][..k + 1] == body[..k + 1];
    }
  }

  /** One more digit. */
  lemma OneMore(body: seq<Byte>, k: nat, hex: bool)
    requires k < |body| && AllDigits(body[..k], hex) && IsDigit(body[k], hex)
    ensures AllDigits(body[..k + 1], hex)
    ensures Numeral(body[..k + 1], hex) == Numeral(body[..k], hex) * (if hex then 16 else 10) + DigitValue(body[k])
  {
    assert body[..k + 1] == body[..k] + [body[k]];
    assert body[..k + 1][..k] == body[..k];
  }

  method AccumulateDecimal(val: int32, c: Byte) returns (r: Option<int32>)
    requires 0 <= val <= 0x10FFFF
    ensures r.Some? <==> IsDigit(c, false)
    ensures r.Some? ==> r.value as int == val as int * 10 + DigitValue(c)
  {
    if '0' as int <= c <= '9' as int {
      r := Some(val * 10 + (c - '0' as int) as int32);
    } else {
      r := None;
    }
  }

  method AccumulateHex(val: int32, c: Byte) returns (r: Option<int32>)
    requires 0 <= val <= 0x10FFFF
    ensures r.Some? <==> IsDigit(c, true)
    ensures r.Some? ==> r.value as int == val as int * 16 + DigitValue(c)
  {
    if '0' as int <= c <= '9' as int {
      r := Some(val * 16 + (c - '0' as int) as int32);
    } else if 'a' as int <= c <= 'f' as int {
      r := Some(val * 16 + (c - 'a' as int) as int32 + 10);
    } else if 'A' as int <= c <= 'F' as int {
      r := Some(val * 16 + (c - 'A' as int) as int32 + 10);
    } else {
      r := None;
    }
  }

  predicate CharValueOK(val: int32, xml11: bool) {
    IsXMLCharValue(val) || (xml11 && IsXML11CharValue(val))
  }

  lemma CharValueExact(val: int32, xml11: bool)
    requires 0 <= val
    ensures CharValueOK(val, xml11) <==> IsChar(val as int, xml11)
    ensures IsXMLCharValue(val) <==> IsChar(val as int, false)
    ensures IsXML11CharValue(val) <==> IsChar(val as int, true)
  {
  }

  /** The loop of `parseStringCharRef`, on the bytes behind the opener. */
  method ScanDigits(body: seq<Byte>, hex: bool, xml11: bool) returns (v: Option<CharRef>)
    ensures v == Body(body, hex, xml11)
  {
    var val: int32 := 0;
    var digits := 0;
    while digits < |body| && body[digits] != SEMI
      invariant 0 <= digits <= |body| && SEMI !in body[..digits]
      invariant AllDigits(body[..digits], hex) && 0 <= val <= 0x10FFFF && val as int == Numeral(body[..digits], hex)
    {
      var next;
      if hex {
        next := AccumulateHex(val, body[digits]);
      } else {
        next := AccumulateDecimal(val, body[digits]);
      }
      if next.None? {
        Hopeless(body, digits, hex, xml11);
        return None;
      }
      OneMore(body, digits, hex);
      val := next.value;
      if val > 0x10FFFF {
        Hopeless(body, digits, hex, xml11);
        return None;
      }
      digits := digits + 1;
    }
    assert SemiAt(body) == digits;
    if digits == 0 || digits == |body| {
      return None;
    }
    CharValueExact(val, xml11);
    if !CharValueOK(val, xml11) {
      return None;
    }
    v := Some(CharRef(val as int, |Opener(hex)| + digits + 1));
  }

  /** `parseStringCharRef` reads stored text. */
  method ParseStringCharRef(s: seq<Byte>, xml11: bool) returns (v: Option<CharRef>)
    ensures v == Reference(s, xml11)
  {
    if !([AMP, HASH] <= s) {
      return None;
    }
    assert s[..2] == [s[0], s[1]];
    if |s| == 2 {
      return None;
    }
    if s[2] == LOWER_X {
      assert s[..3] == [s[0], s[1], s[2]];
      v := ScanDigits(s[3..], true, xml11);
    } else {
      v := ScanDigits(s[2..], false, xml11);
    }
  }

  /** The cursor the other scanner advances as it reads. */
  class Cursor {
    const input: seq<Byte>
    var pos: nat

    ghost predicate Valid()
      reads this
    {
      pos <= |input|
    }

    ghost function Ahead(): seq<Byte>
      requires Valid()
      reads this
    {
      input[pos..]
    }

    function Peek(): Byte
      requires Valid()
      reads this
    {
      if pos == |input| then 0 else input[pos]
    }

    method ConsumeString(t: seq<Byte>) returns (ok: bool)
      requires Valid()
      modifies this
      ensures Valid() && ok == (t <= old(Ahead())) && pos == old(pos) + if ok then |t| else 0
    {
      ok := t <= input[pos..];
      if ok {
        pos := pos + |t|;
      }
    }

    /** The digits and the semicolon, with the value accumulated in place. */
    method ConsumeDigits(hex: bool, xml11: bool) returns (r: Option<int>)
      requires Valid()
      modifies this
      ensures Valid()
      ensures r.Some? == Body(old(Ahead()), hex, xml11).Some?
      ensures r.Some? ==>
        var v := Body(old(Ahead()), hex, xml11).value;
        r.value == v.r && pos == old(pos) + v.width - |Opener(hex)|
    {
      ghost var body := Ahead();
      var val: int32 := 0;
      var digits := 0;
      while pos < |input| && Peek() != SEMI
        invariant Valid() && pos == old(pos) + digits && SEMI !in body[..digits]
        invariant AllDigits(body[..digits], hex) && 0 <= val <= 0x10FFFF && val as int == Numeral(body[..digits], hex)
        decreases |input| - pos
      {
        assert body[digits] == input[pos];
        var next;
        if hex {
          next := AccumulateHex(val, Peek());
        } else {
          next := AccumulateDecimal(val, Peek());
        }
        if next.None? {
          Hopeless(body, digits, hex, xml11);
          return None;
        }
        OneMore(body, digits, hex);
        val := next.value;
        digits := digits + 1;
        if val > 0x10FFFF {
          Hopeless(body, digits - 1, hex, xml11);
          return None;
        }
        pos := pos + 1;
      }
      assert pos < |input| ==> body[digits] == input[pos];
      assert SemiAt(body) == digits;
      if digits == 0 || Peek() != SEMI {
        return None;
      }
      pos := pos + 1;
      CharValueExact(val, xml11);
      r := if CharValueOK(val, xml11) && val <= 0x10FFFF then Some(val as int) else None;
    }

    /** `parseCharRef` reads the document: the same references, each consumed to its end. */
    method ParseCharRef(xml11: bool) returns (r: Option<int>)
      requires Valid()
      modifies this
      ensures Valid()
      ensures r.Some? == Reference(old(Ahead()), xml11).Some?
      ensures r.Some? ==>
        var v := Reference(old(Ahead()), xml11).value; r.value == v.r && pos == old(pos) + v.width
    {
      var hex := ConsumeString([AMP, HASH, LOWER_X]);
      if hex {
        r := ConsumeDigits(true, xml11);
        return;
      }
      var dec := ConsumeString([AMP, HASH]);
      if dec {
        r := ConsumeDigits(false, xml11);
        return;
      }
      r := None;
    }
  }
}
