/** Character references as a writer forms them: every one is read back. */
module CharRefForms {
  import opened Utf8
  import opened CharRefs
  import opened Wrappers

  /** The decimal digits of a number. */
  function Decimal(n: nat): (s: seq<Byte>)
    ensures s != []
  {
    if n < 10 then ['0' as int + n] else Decimal(n / 10) + ['0' as int + n % 10]
  }

  function HexDigit(d: nat, upper: bool): Byte
    requires d < 16
  {
    if d < 10 then '0' as int + d else (if upper then 'A' as int else 'a' as int) + (d - 10)
  }

  /** The hexadecimal digits of a number. */
  function Hexadecimal(n: nat, upper: bool): (s: seq<Byte>)
    ensures s != []
  {
    if n < 16 then [HexDigit(n, upper)] else Hexadecimal(n / 16, upper) + [HexDigit(n % 16, upper)]
  }

  lemma DigitRead(d: nat, hex: bool, upper: bool)
    requires d < if hex then 16 else 10
    ensures var c := if hex then HexDigit(d, upper) else '0' as int + d;
      IsDigit(c, hex) && IsDigit(c, true) && DigitValue(c) == d
  {
  }

  lemma LastDigit(ds: seq<Byte>, c: Byte, hex: bool)
    requires AllDigits(ds, hex) && IsDigit(c, hex)
    ensures AllDigits(ds + [c], hex) && IsDigit(c, true)
    ensures Numeral(ds + [c], hex) == Numeral(ds, hex) * (if hex then 16 else 10) + DigitValue(c)
  {
    assert (ds + [c])[..|ds|] == ds;
  }

  lemma {:induction false} DecimalRead(n: nat)
    ensures AllDigits(Decimal(n), false) && Numeral(Decimal(n), false) == n
  {
    DigitRead(n % 10, false, false);
    var c := '0' as int + n % 10;
    if n < 10 {
      LastDigit([], c, false);
      assert [] + [c] == [c];
    } else {
      DecimalRead(n / 10);
      LastDigit(Decimal(n / 10), c, false);
    }
  }

  lemma {:induction false} HexadecimalRead(n: nat, upper: bool)
    ensures AllDigits(Hexadecimal(n, upper), true) && Numeral(Hexadecimal(n, upper), true) == n
  {
    DigitRead(n % 16, true, upper);
    var c := HexDigit(n % 16, upper);
    if n < 16 {
      LastDigit([], c, true);
      assert [] + [c] == [c];
    } else {
      HexadecimalRead(n / 16, upper);
      LastDigit(Hexadecimal(n / 16, upper), c, true);
    }
  }

  lemma DecimalForm(r: nat, rest: seq<Byte>, xml11: bool)
    requires IsChar(r, xml11)
    ensures var ds := Decimal(r);
      Reference(['&' as int, '#' as int] + ds + [';' as int] + rest, xml11) == Some(CharRef(r, |ds| + 3))
  {
    var ds := Decimal(r);
    DecimalRead(r);
    var s := ['&' as int, '#' as int] + ds + [';' as int] + rest;
    assert Opener(false) + ds + [SEMI] <= s;
    BodySpelled(s, false, ds, xml11);
    assert ds[0] != 'x' as int && s[2] == ds[0] && Opener(true)[2] == 'x' as int;
  }

  lemma HexadecimalForm(r: nat, rest: seq<Byte>, xml11: bool, upper: bool)
    requires IsChar(r, xml11)
    ensures var xs := Hexadecimal(r, upper);
      Reference(['&' as int, '#' as int, 'x' as int] + xs + [';' as int] + rest, xml11) == Some(CharRef(r, |xs| + 4))
  {
    var xs := Hexadecimal(r, upper);
    HexadecimalRead(r, upper);
    var t := ['&' as int, '#' as int, 'x' as int] + xs + [';' as int] + rest;
    assert Opener(true) + xs + [SEMI] <= t;
    BodySpelled(t, true, xs, xml11);
  }

  /** A reference to a character, in decimal or with either case of hexadecimal digits, is read as the character. */
  lemma FormsRead(r: nat, rest: seq<Byte>, xml11: bool, upper: bool)
    requires IsChar(r, xml11)
    ensures var ds := Decimal(r);
      Reference(['&' as int, '#' as int] + ds + [';' as int] + rest, xml11) == Some(CharRef(r, |ds| + 3))
    ensures var xs := Hexadecimal(r, upper);
      Reference(['&' as int, '#' as int, 'x' as int] + xs + [';' as int] + rest, xml11) == Some(CharRef(r, |xs| + 4))
  {
    hide Reference, Decimal, Hexadecimal;
    DecimalForm(r, rest, xml11);
    HexadecimalForm(r, rest, xml11, upper);
  }

  /** A number that is no character is not read, however it is written. */
  lemma FormsRefused(r: nat, rest: seq<Byte>, xml11: bool)
    requires !IsChar(r, xml11)
    ensures Reference(['&' as int, '#' as int] + Decimal(r) + [';' as int] + rest, xml11) == None
  {
    var ds := Decimal(r);
    DecimalRead(r);
    var s := ['&' as int, '#' as int] + ds + [';' as int] + rest;
    var body := s[2..];
    assert forall k :: 0 <= k < |ds| ==> body[k] == ds[k];
    assert body[|ds|] == SEMI;
    assert SemiAt(body) == |ds| && body[..|ds|] == ds;
    assert ds[0] != 'x' as int && s[2] == ds[0] && Opener(true)[2] == 'x' as int;
  }

  /** The characters of XML 1.0 and of XML 1.1, by what they leave out. */
  lemma CharExactly(r: int, xml11: bool)
    ensures IsChar(r, xml11) <==>
      && 0 < r <= 0x10FFFF && !(0xD800 <= r <= 0xDFFF) && r != 0xFFFE && r != 0xFFFF
      && (xml11 || r >= 0x20 || r == 9 || r == 10 || r == 13)
  {
  }
}
