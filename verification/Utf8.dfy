/** UTF-8 as Go's `utf8.DecodeRune` and `WriteRune` read and write it. */
module Utf8 {
  type Byte = int

  const RUNE_ERROR := 0xFFFD
  const MAX_RUNE := 0x10FFFF

  predicate IsScalar(r: int) {
    0 <= r <= MAX_RUNE && !(0xD800 <= r <= 0xDFFF)
  }

  function Encode(r: int): (s: seq<Byte>)
    requires IsScalar(r)
    ensures 1 <= |s| <= 4
    ensures r < 0x80 ==> s == [r]
    ensures r >= 0x80 ==> forall i :: 0 <= i < |s| ==> s[i] >= 0x80
  {
    if r < 0x80 then [r]
    else if r < 0x800 then [0xC0 + r / 0x40, 0x80 + r % 0x40]
    else if r < 0x10000 then [0xE0 + r / 0x1000, 0x80 + r / 0x40 % 0x40, 0x80 + r % 0x40]
    else [0xF0 + r / 0x40000, 0x80 + r / 0x1000 % 0x40, 0x80 + r / 0x40 % 0x40, 0x80 + r % 0x40]
  }

  datatype Decoded = Decoded(r: int, width: nat)

  /** U+FFFD itself is three bytes wide. */
  predicate IsError(d: Decoded) {
    d.r == RUNE_ERROR && d.width <= 1
  }

  predicate Continues(s: seq<Byte>, i: nat) {
    i < |s| && 0x80 <= s[i] <= 0xBF
  }

  /** The range of the second byte, by the first: it excludes overlong forms, surrogates and runes too large. */
  predicate SecondByte(b0: Byte, b1: Byte) {
    (if b0 == 0xE0 then 0xA0 else if b0 == 0xF0 then 0x90 else 0x80) <= b1
      <= (if b0 == 0xED then 0x9F else if b0 == 0xF4 then 0x8F else 0xBF)
  }

  /** The rune at position `i`; ill-formed text decodes as an error of width one, no text as an error of width zero. */
  function Decode(s: seq<Byte>, i: nat): (d: Decoded)
    requires i <= |s|
    ensures IsError(d) || (i + d.width <= |s| && 1 <= d.width <= 4)
    ensures d.width <= 1 ==> d.r == RUNE_ERROR || d.r < 0x80
  {
    if i == |s| then Decoded(RUNE_ERROR, 0)
    else if 0 <= s[i] < 0x80 then Decoded(s[i], 1)
    else if 0xC2 <= s[i] <= 0xDF && Continues(s, i + 1) then
      Decoded((s[i] - 0xC0) * 0x40 + (s[i + 1] - 0x80), 2)
    else if 0xE0 <= s[i] <= 0xEF && Continues(s, i + 1) && SecondByte(s[i], s[i + 1]) && Continues(s, i + 2) then
      Decoded((s[i] - 0xE0) * 0x1000 + (s[i + 1] - 0x80) * 0x40 + (s[i + 2] - 0x80), 3)
    else if 0xF0 <= s[i] <= 0xF4 && Continues(s, i + 1) && SecondByte(s[i], s[i + 1])
      && Continues(s, i + 2) && Continues(s, i + 3) then
      Decoded((s[i] - 0xF0) * 0x40000 + (s[i + 1] - 0x80) * 0x1000 + (s[i + 2] - 0x80) * 0x40 + (s[i + 3] - 0x80), 4)
    else Decoded(RUNE_ERROR, 1)
  }

  // ----- base 64 -----

  lemma Divide(n: int, d: int, q: int, r: int)
    requires (d == 0x40 && n == q * 0x40 + r) || (d == 0x1000 && n == q * 0x1000 + r) || (d == 0x40000 && n == q * 0x40000 + r)
    requires 0 <= r < d
    ensures n / d == q && n % d == r
  {
    if d == 0x40 {
    } else if d == 0x1000 {
    } else {
    }
  }

  lemma Join2(a: int, b: int)
    requires 0 <= b < 0x40
    ensures (a * 0x40 + b) / 0x40 == a && (a * 0x40 + b) % 0x40 == b
  {
    Divide(a * 0x40 + b, 0x40, a, b);
  }

  lemma Join3(a: int, b: int, c: int)
    requires 0 <= b < 0x40 && 0 <= c < 0x40
    ensures var n := a * 0x1000 + b * 0x40 + c;
      n / 0x1000 == a && n / 0x40 == a * 0x40 + b && n / 0x40 % 0x40 == b && n % 0x40 == c
  {
    var n := a * 0x1000 + b * 0x40 + c;
    Divide(n, 0x40, a * 0x40 + b, c);
    Divide(a * 0x40 + b, 0x40, a, b);
    Divide(n, 0x1000, a, b * 0x40 + c);
  }

  lemma Join4(a: int, b: int, c: int, d: int)
    requires 0 <= b < 0x40 && 0 <= c < 0x40 && 0 <= d < 0x40
    ensures var n := a * 0x40000 + b * 0x1000 + c * 0x40 + d;
      n / 0x40000 == a && n / 0x1000 % 0x40 == b && n / 0x40 % 0x40 == c && n % 0x40 == d
  {
    var n := a * 0x40000 + b * 0x1000 + c * 0x40 + d;
    Join3(a * 0x40 + b, c, d);
    Divide(a * 0x40 + b, 0x40, a, b);
    Divide(n, 0x40000, a, b * 0x1000 + c * 0x40 + d);
  }

  lemma Halve(r: int)
    ensures r == r / 0x40 * 0x40 + r % 0x40 && 0 <= r % 0x40 < 0x40
  {
  }

  /** Any rune in base 64. */
  lemma Split(r: int)
    requires 0 <= r
    ensures r == r / 0x1000 * 0x1000 + r / 0x40 % 0x40 * 0x40 + r % 0x40
    ensures r == r / 0x40000 * 0x40000 + r / 0x1000 % 0x40 * 0x1000 + r / 0x40 % 0x40 * 0x40 + r % 0x40
    ensures 0 <= r / 0x40 % 0x40 < 0x40 && 0 <= r % 0x40 < 0x40 && 0 <= r / 0x1000 % 0x40 < 0x40
  {
    var a := r / 0x40;
    var b := a / 0x40;
    Halve(r);
    Halve(a);
    Halve(b);
    Divide(r, 0x1000, b, a % 0x40 * 0x40 + r % 0x40);
    Divide(r, 0x40000, b / 0x40, b % 0x40 * 0x1000 + a % 0x40 * 0x40 + r % 0x40);
  }

  /** What was written is read back. */
  lemma DecodeEncoded(r: int, before: seq<Byte>, after: seq<Byte>)
    requires IsScalar(r)
    ensures Decode(before + Encode(r) + after, |before|) == Decoded(r, |Encode(r)|)
  {
    var e, i := Encode(r), |before|;
    var s := before + e + after;
    assert |s| >= i + |e| && forall k :: 0 <= k < |e| ==> s[i + k] == e[k];
    Halve(r);
    Split(r);
    if r < 0x80 {
      assert s[i + 0] == e[0];
    } else if r < 0x800 {
      assert s[i + 0] == e[0] && s[i + 1] == e[1];
      assert 2 <= r / 0x40 < 0x20;
    } else if r < 0x10000 {
      assert s[i + 0] == e[0] && s[i + 1] == e[1] && s[i + 2] == e[2];
      Read3(r, s, i);
    } else {
      assert s[i + 0] == e[0] && s[i + 1] == e[1] && s[i + 2] == e[2] && s[i + 3] == e[3];
      Read4(r, s, i);
    }
  }

  lemma Read3(r: int, s: seq<Byte>, i: nat)
    requires 0x800 <= r < 0x10000 && !(0xD800 <= r <= 0xDFFF) && |s| >= i + 3
    requires s[i] == 0xE0 + r / 0x1000 && s[i + 1] == 0x80 + r / 0x40 % 0x40 && s[i + 2] == 0x80 + r % 0x40
    ensures Decode(s, i) == Decoded(r, 3)
  {
    Split(r);
    var a, b, c := r / 0x1000, r / 0x40 % 0x40, r % 0x40;
    assert r == a * 0x1000 + b * 0x40 + c && 0 <= a < 0x10;
    assert a == 0 ==> b >= 0x20;
    assert a == 0xD ==> b < 0x20;
  }

  lemma Read4(r: int, s: seq<Byte>, i: nat)
    requires 0x10000 <= r <= MAX_RUNE && |s| >= i + 4
    requires s[i] == 0xF0 + r / 0x40000 && s[i + 1] == 0x80 + r / 0x1000 % 0x40
    requires s[i + 2] == 0x80 + r / 0x40 % 0x40 && s[i + 3] == 0x80 + r % 0x40
    ensures Decode(s, i) == Decoded(r, 4)
  {
    Split(r);
    var a, b, c, d := r / 0x40000, r / 0x1000 % 0x40, r / 0x40 % 0x40, r % 0x40;
    assert r == a * 0x40000 + b * 0x1000 + c * 0x40 + d && 0 <= a < 5;
    assert a == 0 ==> b >= 0x10;
    assert a == 4 ==> b < 0x10;
  }

  lemma Written2(s: seq<Byte>, i: nat)
    requires i + 2 <= |s| && 0xC2 <= s[i] <= 0xDF && Continues(s, i + 1)
    ensures var r := (s[i] - 0xC0) * 0x40 + (s[i + 1] - 0x80); IsScalar(r) && Encode(r) == [s[i], s[i + 1]]
  {
    Join2(s[i] - 0xC0, s[i + 1] - 0x80);
  }

  lemma Written3(s: seq<Byte>, i: nat)
    requires i + 3 <= |s| && 0xE0 <= s[i] <= 0xEF && Continues(s, i + 1) && SecondByte(s[i], s[i + 1]) && Continues(s, i + 2)
    ensures var r := (s[i] - 0xE0) * 0x1000 + (s[i + 1] - 0x80) * 0x40 + (s[i + 2] - 0x80);
      IsScalar(r) && Encode(r) == [s[i], s[i + 1], s[i + 2]]
  {
    Join3(s[i] - 0xE0, s[i + 1] - 0x80, s[i + 2] - 0x80);
  }

  lemma Written4(s: seq<Byte>, i: nat)
    requires i + 4 <= |s| && 0xF0 <= s[i] <= 0xF4 && Continues(s, i + 1) && SecondByte(s[i], s[i + 1])
    requires Continues(s, i + 2) && Continues(s, i + 3)
    ensures var r := (s[i] - 0xF0) * 0x40000 + (s[i + 1] - 0x80) * 0x1000 + (s[i + 2] - 0x80) * 0x40 + (s[i + 3] - 0x80);
      IsScalar(r) && Encode(r) == [s[i], s[i + 1], s[i + 2], s[i + 3]]
  {
    Join4(s[i] - 0xF0, s[i + 1] - 0x80, s[i + 2] - 0x80, s[i + 3] - 0x80);
  }

  /** And a rune that was read is written with the same bytes. */
  lemma EncodeDecoded(s: seq<Byte>, i: nat)
    requires i <= |s| && !IsError(Decode(s, i))
    ensures IsScalar(Decode(s, i).r) && Encode(Decode(s, i).r) == s[i..i + Decode(s, i).width]
  {
    hide Encode, SecondByte;
    var d := Decode(s, i);
    if d.width == 1 {
      assert s[i..i + 1] == [s[i]];
    } else if d.width == 2 {
      Written2(s, i);
      assert s[i..i + 2] == [s[i], s[i + 1]];
    } else if d.width == 3 {
      Written3(s, i);
      assert s[i..i + 3] == [s[i], s[i + 1], s[i + 2]];
    } else {
      Written4(s, i);
      assert s[i..i + 4] == [s[i], s[i + 1], s[i + 2], s[i + 3]];
    }
  }

  /** `WriteRune` of a rune just read. */
  method WriteDecoded(s: seq<Byte>, i: nat) returns (bytes: seq<Byte>)
    requires i <= |s| && Decode(s, i).r != RUNE_ERROR
    ensures bytes == s[i..i + Decode(s, i).width] && bytes != []
  {
    EncodeDecoded(s, i);
    bytes := Encode(Decode(s, i).r);
  }

  /** The examples of section 7 of RFC 3629, and the first and last rune of each length. */
  lemma Examples()
    ensures Encode(0x41) == [0x41] && Encode(0x2262) == [0xE2, 0x89, 0xA2] && Encode(0x391) == [0xCE, 0x91]
    ensures Encode(0xD55C) == [0xED, 0x95, 0x9C] && Encode(0xFEFF) == [0xEF, 0xBB, 0xBF]
    ensures Encode(0x233B4) == [0xF0, 0xA3, 0x8E, 0xB4]
    ensures Encode(0x7F) == [0x7F] && Encode(0x80) == [0xC2, 0x80] && Encode(0x7FF) == [0xDF, 0xBF]
    ensures Encode(0x800) == [0xE0, 0xA0, 0x80] && Encode(0xFFFF) == [0xEF, 0xBF, 0xBF]
    ensures Encode(0x10000) == [0xF0, 0x90, 0x80, 0x80] && Encode(0x10FFFF) == [0xF4, 0x8F, 0xBF, 0xBF]
  {
  }
}
