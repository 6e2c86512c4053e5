/** Names: production 5 of XML 1.0 on runes, and the scanner for names in stored text. */
module Names {
  import opened Utf8
  import opened Wrappers

  type Name = seq<Byte>

  // ----- the production -----

  predicate IsNCNameStartChar(r: int) {
    'A' as int <= r <= 'Z' as int || 'a' as int <= r <= 'z' as int || r == '_' as int
    || 0xC0 <= r <= 0xD6 || 0xD8 <= r <= 0xF6 || 0xF8 <= r <= 0x2FF || 0x370 <= r <= 0x37D || 0x37F <= r <= 0x1FFF
    || 0x200C <= r <= 0x200D || 0x2070 <= r <= 0x218F || 0x2C00 <= r <= 0x2FEF || 0x3001 <= r <= 0xD7FF
    || 0xF900 <= r <= 0xFDCF || 0xFDF0 <= r <= 0xFFFD || 0x10000 <= r <= 0xEFFFF
  }

  predicate IsNCNameChar(r: int) {
    IsNCNameStartChar(r) || '0' as int <= r <= '9' as int || r == '-' as int || r == '.' as int
    || r == 0xB7 || 0x300 <= r <= 0x36F || 0x203F <= r <= 0x2040
  }

  /** Production 4. */
  predicate StartsName(r: int) {
    r == ':' as int || IsNCNameStartChar(r)
  }

  /** Production 4a. */
  predicate ContinuesName(r: int) {
    r == ':' as int || IsNCNameChar(r)
  }

  /** Production 4, by the ranges it leaves out. */
  lemma StartsNameExactly(r: int)
    ensures r < 0x80 ==>
      (StartsName(r) <==>
        r == '_' as int || r == ':' as int || 'A' as int <= r <= 'Z' as int || 'a' as int <= r <= 'z' as int)
    ensures r >= 0x80 ==>
      (!StartsName(r) <==>
        r <= 0xBF || r == 0xD7 || r == 0xF7 || 0x300 <= r <= 0x36F || r == 0x37E || 0x2000 <= r <= 0x200B
        || 0x200E <= r <= 0x206F || 0x2190 <= r <= 0x2BFF || 0x2FF0 <= r <= 0x3000 || 0xD800 <= r <= 0xF8FF
        || 0xFDD0 <= r <= 0xFDEF || r == 0xFFFE || r == 0xFFFF || r >= 0xF0000)
  {
  }

  /** Production 4a, by what it adds. */
  lemma ContinuesNameExactly(r: int)
    ensures ContinuesName(r) && !StartsName(r) <==>
      || r == '-' as int || r == '.' as int || '0' as int <= r <= '9' as int
      || r == 0xB7 || 0x300 <= r <= 0x36F || r == 0x203F || r == 0x2040
    ensures StartsName(r) ==> ContinuesName(r)
  {
  }

  predicate AreScalars(runes: seq<int>) {
    forall k :: 0 <= k < |runes| ==> IsScalar(runes[k])
  }

  predicate AreNameChars(runes: seq<int>) {
    forall k :: 0 <= k < |runes| ==> ContinuesName(runes[k])
  }

  lemma NameCharsScalar(runes: seq<int>)
    requires AreNameChars(runes)
    ensures AreScalars(runes)
  {
    forall k | 0 <= k < |runes| ensures IsScalar(runes[k]) {
      assert ContinuesName(runes[k]);
    }
  }

  function EncodeAll(runes: seq<int>): seq<Byte>
    requires AreScalars(runes)
  {
    if runes == [] then [] else Encode(runes[0]) + EncodeAll(runes[1..])
  }

  /** The name is written with these runes. */
  ghost predicate SpelledBy(runes: seq<int>, name: Name) {
    runes != [] && StartsName(runes[0]) && AreNameChars(runes) && AreScalars(runes) && EncodeAll(runes) == name
  }

  /** Production 5. */
  ghost predicate IsName(name: Name) {
    exists runes: seq<int> :: SpelledBy(runes, name)
  }

  /** The name is written with the replacement character U+FFFD. */
  ghost predicate HoldsReplacement(name: Name) {
    exists runes: seq<int> :: SpelledBy(runes, name) && RUNE_ERROR in runes
  }

  lemma {:induction false} EncodedOnce(a: seq<int>, b: seq<int>)
    requires AreScalars(a) && AreScalars(b) && EncodeAll(a) == EncodeAll(b)
    ensures a == b
  {
    hide Encode, Decode;
    if a != [] && b != [] {
      DecodeEncoded(a[0], [], EncodeAll(a[1..]));
      DecodeEncoded(b[0], [], EncodeAll(b[1..]));
      assert EncodeAll(a) == [] + Encode(a[0]) + EncodeAll(a[1..]);
      assert EncodeAll(b) == [] + Encode(b[0]) + EncodeAll(b[1..]);
      assert EncodeAll(a[1..]) == EncodeAll(a)[|Encode(a[0])|..];
      assert EncodeAll(b[1..]) == EncodeAll(b)[|Encode(b[0])|..];
      EncodedOnce(a[1..], b[1..]);
      assert a == [a[0]] + a[1..] && b == [b[0]] + b[1..];
    }
  }

  lemma {:induction false} EncodedBytes(runes: seq<int>, b: Byte)
    requires AreScalars(runes) && b < 0x80 && b !in runes
    ensures b !in EncodeAll(runes)
  {
    if runes != [] {
      assert runes[0] in runes;
      EncodedBytes(runes[1..], b);
    }
  }

  /** No byte of a name is an ASCII character that may not stand in one. */
  lemma NameBytes(name: Name, b: Byte)
    requires IsName(name) && b < 0x80 && !ContinuesName(b)
    ensures name != [] && b !in name
  {
    var runes: seq<int> :| SpelledBy(runes, name);
    EncodedBytes(runes, b);
  }

  // ----- the scanner -----

  predicate IsNameStartChar(r: int) {
    r != RUNE_ERROR && (r == ':' as int || IsNCNameStartChar(r))
  }

  predicate IsNameChar(r: int) {
    r != RUNE_ERROR && (r == ':' as int || IsNCNameChar(r))
  }

  /** Where the name characters from `i` on end; there must be another, well-formed character behind them. */
  function NameChars(s: seq<Byte>, i: nat): (n: Option<nat>)
    requires i <= |s|
    ensures n.Some? ==> i <= n.value < |s|
    decreases |s| - i
  {
    var d := Decode(s, i);
    if d.r == RUNE_ERROR then None
    else if !IsNameChar(d.r) then Some(i)
    else NameChars(s, i + d.width)
  }

  /** Where the name at `i` ends. */
  function NameEnd(s: seq<Byte>, i: nat, maxNameLength: nat): (n: Option<nat>)
    requires i <= |s|
    ensures n.Some? ==> i < n.value < |s|
  {
    var d := Decode(s, i);
    if d.r == RUNE_ERROR || !IsNameStartChar(d.r) then None
    else
      var end := NameChars(s, i + d.width);
      if end.None? || (maxNameLength > 0 && end.value - i > maxNameLength) then None else end
  }

  /** A character that ends a name stands at `k`. */
  predicate EndsName(s: seq<Byte>, k: nat) {
    k <= |s| && Decode(s, k).r != RUNE_ERROR && !IsNameChar(Decode(s, k).r)
  }

  /**
   * At `i` stands a name of production 5, without U+FFFD and not too long, and behind it a character that is none of a
   * name.
   */
  ghost predicate ReadsName(s: seq<Byte>, i: nat, maxNameLength: nat, name: Name) {
    && IsName(name) && !HoldsReplacement(name) && (maxNameLength == 0 || |name| <= maxNameLength)
    && i + |name| <= |s| && s[i..i + |name|] == name && EndsName(s, i + |name|)
  }

  lemma Cut(s: seq<Byte>, i: nat, a: seq<Byte>, b: seq<Byte>)
    requires i + |a| + |b| <= |s|
    ensures s[i..i + |a| + |b|] == a + b <==> s[i..i + |a|] == a && s[i + |a|..i + |a| + |b|] == b
    ensures s[i..i + |a|] == a ==> s == s[..i] + a + s[i + |a|..]
  {
    var t := s[i..i + |a| + |b|];
    assert t == s[i..i + |a|] + s[i + |a|..i + |a| + |b|];
    if t == a + b {
      assert s[i..i + |a|] == t[..|a|] && s[i + |a|..i + |a| + |b|] == t[|a|..];
    }
  }

  /** The rune at `i`, written there. */
  lemma RuneRead(s: seq<Byte>, i: nat, r: int)
    requires IsScalar(r) && i + |Encode(r)| <= |s| && s[i..i + |Encode(r)|] == Encode(r)
    ensures Decode(s, i) == Decoded(r, |Encode(r)|)
  {
    hide Encode, Decode;
    Cut(s, i, Encode(r), []);
    DecodeEncoded(r, s[..i], s[i + |Encode(r)|..]);
  }

  lemma {:induction false} CharsRead(s: seq<Byte>, i: nat, runes: seq<int>)
    requires AreNameChars(runes) && AreScalars(runes) && RUNE_ERROR !in runes && i + |EncodeAll(runes)| <= |s|
    requires s[i..i + |EncodeAll(runes)|] == EncodeAll(runes) && EndsName(s, i + |EncodeAll(runes)|)
    ensures NameChars(s, i) == Some(i + |EncodeAll(runes)|)
    decreases |runes|
  {
    hide Encode, Decode;
    if runes != [] {
      var e, rest := Encode(runes[0]), EncodeAll(runes[1..]);
      Cut(s, i, e, rest);
      RuneRead(s, i, runes[0]);
      CharsRead(s, i + |e|, runes[1..]);
    }
  }

  lemma {:induction false} CharsSpelled(s: seq<Byte>, i: nat) returns (runes: seq<int>)
    requires i <= |s| && NameChars(s, i).Some?
    ensures AreNameChars(runes) && AreScalars(runes) && RUNE_ERROR !in runes
    ensures EndsName(s, NameChars(s, i).value) && EncodeAll(runes) == s[i..NameChars(s, i).value]
    decreases |s| - i
  {
    hide Encode, Decode;
    var d, end := Decode(s, i), NameChars(s, i).value;
    if !IsNameChar(d.r) {
      runes := [];
    } else {
      var rest := CharsSpelled(s, i + d.width);
      runes := [d.r] + rest;
      EncodeDecoded(s, i);
      assert runes[1..] == rest;
      assert s[i..end] == s[i..i + d.width] + s[i + d.width..end];
    }
  }

  lemma NameRead(s: seq<Byte>, i: nat, maxNameLength: nat, name: Name)
    requires ReadsName(s, i, maxNameLength, name)
    ensures NameEnd(s, i, maxNameLength) == Some(i + |name|)
  {
    hide Encode, Decode, IsNCNameStartChar, IsNCNameChar;
    var runes: seq<int> :| SpelledBy(runes, name);
    var e, rest := Encode(runes[0]), EncodeAll(runes[1..]);
    assert runes[0] in runes;
    Cut(s, i, e, rest);
    RuneRead(s, i, runes[0]);
    CharsRead(s, i + |e|, runes[1..]);
  }

  lemma NameSpelled(s: seq<Byte>, i: nat, maxNameLength: nat)
    requires i <= |s| && NameEnd(s, i, maxNameLength).Some?
    ensures ReadsName(s, i, maxNameLength, s[i..NameEnd(s, i, maxNameLength).value])
  {
    hide Encode, Decode, IsNCNameStartChar, IsNCNameChar;
    var d, end := Decode(s, i), NameEnd(s, i, maxNameLength).value;
    var name := s[i..end];
    var rest := CharsSpelled(s, i + d.width);
    var runes := [d.r] + rest;
    EncodeDecoded(s, i);
    StartContinues(d.r);
    assert runes[1..] == rest;
    assert name == s[i..i + d.width] + s[i + d.width..end];
    assert SpelledBy(runes, name);
    forall other: seq<int> | SpelledBy(other, name) ensures RUNE_ERROR !in other {
      EncodedOnce(runes, other);
    }
  }

  lemma StartContinues(r: int)
    requires StartsName(r)
    ensures ContinuesName(r)
  {
  }

  /** The scanner reads exactly the names of production 5 without U+FFFD, up to the limit. */
  lemma NameEndExact(s: seq<Byte>, i: nat, maxNameLength: nat, name: Name)
    requires i <= |s|
    ensures NameEnd(s, i, maxNameLength) == Some(i + |name|) && s[i..i + |name|] == name
      <==> ReadsName(s, i, maxNameLength, name)
  {
    hide NameEnd, ReadsName;
    if ReadsName(s, i, maxNameLength, name) {
      NameRead(s, i, maxNameLength, name);
      ReadsSlice(s, i, maxNameLength, name);
    } else if NameEnd(s, i, maxNameLength) == Some(i + |name|) {
      NameSpelled(s, i, maxNameLength);
    }
  }

  lemma ReadsSlice(s: seq<Byte>, i: nat, maxNameLength: nat, name: Name)
    requires ReadsName(s, i, maxNameLength, name)
    ensures i + |name| <= |s| && s[i..i + |name|] == name
  {
  }

  lemma NamesRead(s: seq<Byte>, i: nat, maxNameLength: nat)
    requires i <= |s|
    ensures forall n: Name :: ReadsName(s, i, maxNameLength, n) <==>
      NameEnd(s, i, maxNameLength).Some? && s[i..NameEnd(s, i, maxNameLength).value] == n
  {
    hide NameEnd, ReadsName;
    forall n: Name
      ensures ReadsName(s, i, maxNameLength, n) <==>
        NameEnd(s, i, maxNameLength).Some? && s[i..NameEnd(s, i, maxNameLength).value] == n
    {
      NameEndExact(s, i, maxNameLength, n);
    }
  }

  lemma {:induction false} NameCharsOne(s: seq<Byte>, i: nat)
    requires i <= |s| && Decode(s, i).r != RUNE_ERROR && IsNameChar(Decode(s, i).r)
    ensures NameChars(s, i) == NameChars(s, i + Decode(s, i).width)
  {
    hide Decode, IsNameChar;
  }

  /** What the scanner says of a name whose characters end at `end`. */
  lemma NameEnds(s: seq<Byte>, i: nat, end: nat, maxNameLength: nat)
    requires i <= end <= |s| && Decode(s, i).r != RUNE_ERROR && IsNameStartChar(Decode(s, i).r)
    requires NameChars(s, i + Decode(s, i).width) == NameChars(s, end)
    ensures Decode(s, end).r == RUNE_ERROR ==> NameEnd(s, i, maxNameLength) == None
    ensures EndsName(s, end) ==>
      NameEnd(s, i, maxNameLength) == if maxNameLength > 0 && end - i > maxNameLength then None else Some(end)
  {
    hide Decode, IsNameChar, IsNameStartChar;
  }

  /**
   * `parseStringName`: it writes the name rune by rune, and what it wrote is the text it read. It reads exactly the names
   * of production 5 without U+FFFD, up to the limit.
   */
  method ParseStringName(s: seq<Byte>, start: nat, maxNameLength: nat) returns (name: Option<Name>)
    requires start <= |s|
    ensures name.Some? == NameEnd(s, start, maxNameLength).Some?
    ensures name.Some? ==> name.value == s[start..NameEnd(s, start, maxNameLength).value]
    ensures forall n :: name == Some(n) <==> ReadsName(s, start, maxNameLength, n)
  {
    hide Encode, Decode, IsNameChar, IsNameStartChar, NameChars, NameEnd, ReadsName;
    NamesRead(s, start, maxNameLength);
    var d := Decode(s, start);
    if d.r == RUNE_ERROR || !IsNameStartChar(d.r) {
      NoNameEnd(s, start, maxNameLength);
      return None;
    }
    ghost var first := start + d.width;
    var out := WriteDecoded(s, start);
    var i := start + d.width;
    d := Decode(s, i);
    while d.r != RUNE_ERROR && IsNameChar(d.r)
      invariant start < i <= |s| && first <= |s| && out == s[start..i] && d == Decode(s, i)
      invariant NameChars(s, first) == NameChars(s, i)
      decreases |s| - i
    {
      NameCharsOne(s, i);
      var bytes := WriteDecoded(s, i);
      out, i := out + bytes, i + d.width;
      d := Decode(s, i);
    }
    NameEnds(s, start, i, maxNameLength);
    if d.r == RUNE_ERROR {
      return None;
    }
    if maxNameLength > 0 && |out| > maxNameLength {
      return None;
    }
    name := Some(out);
  }

  lemma NoNameEnd(s: seq<Byte>, i: nat, maxNameLength: nat)
    requires i <= |s| && (Decode(s, i).r == RUNE_ERROR || !IsNameStartChar(Decode(s, i).r))
    ensures NameEnd(s, i, maxNameLength) == None
  {
  }

  // ----- the scanner for the document -----

  /** Where the name characters from `i` on end. */
  function DocumentChars(s: seq<Byte>, i: nat): (n: Option<nat>)
    requires i <= |s|
    ensures n.Some? ==> i <= n.value <= |s|
    decreases |s| - i
  {
    if i == |s| then Some(i)
    else
      var d := Decode(s, i);
      if IsError(d) then None
      else if !ContinuesName(d.r) then Some(i)
      else DocumentChars(s, i + d.width)
  }

  /** Where the name at `i` ends. */
  function DocumentNameEnd(s: seq<Byte>, i: nat, maxNameLength: nat): (n: Option<nat>)
    requires i <= |s|
    ensures n.Some? ==> i <= n.value <= |s|
  {
    var d := Decode(s, i);
    if IsError(d) || !StartsName(d.r) then None
    else
      var end := DocumentChars(s, i + d.width);
      if end.None? || (maxNameLength > 0 && end.value - i > maxNameLength) then None else end
  }

  /** Nothing stands at `k`, or a character that ends a name. */
  predicate EndsDocumentName(s: seq<Byte>, k: nat) {
    k <= |s| && (k == |s| || (!IsError(Decode(s, k)) && !ContinuesName(Decode(s, k).r)))
  }

  /** At `i` stands a name of production 5 that is not too long, and behind it nothing or a character that ends it. */
  ghost predicate ReadsDocumentName(s: seq<Byte>, i: nat, maxNameLength: nat, name: Name) {
    && IsName(name) && (maxNameLength == 0 || |name| <= maxNameLength)
    && i + |name| <= |s| && s[i..i + |name|] == name && EndsDocumentName(s, i + |name|)
  }

  lemma {:induction false} DocumentCharsRead(s: seq<Byte>, i: nat, runes: seq<int>)
    requires AreNameChars(runes) && AreScalars(runes) && i + |EncodeAll(runes)| <= |s|
    requires s[i..i + |EncodeAll(runes)|] == EncodeAll(runes) && EndsDocumentName(s, i + |EncodeAll(runes)|)
    ensures DocumentChars(s, i) == Some(i + |EncodeAll(runes)|)
    decreases |runes|
  {
    hide Encode, Decode, ContinuesName;
    if runes != [] {
      var e, rest := Encode(runes[0]), EncodeAll(runes[1..]);
      Cut(s, i, e, rest);
      RuneRead(s, i, runes[0]);
      WideReplacement(runes[0]);
      DocumentCharsRead(s, i + |e|, runes[1..]);
    }
  }

  lemma WideReplacement(r: int)
    requires IsScalar(r)
    ensures !IsError(Decoded(r, |Encode(r)|))
  {
  }

  lemma {:induction false} DocumentCharsSpelled(s: seq<Byte>, i: nat) returns (runes: seq<int>)
    requires i <= |s| && DocumentChars(s, i).Some?
    ensures AreNameChars(runes) && AreScalars(runes)
    ensures EndsDocumentName(s, DocumentChars(s, i).value) && EncodeAll(runes) == s[i..DocumentChars(s, i).value]
    decreases |s| - i
  {
    hide Encode, Decode, ContinuesName;
    var end := DocumentChars(s, i).value;
    if i == |s| || !ContinuesName(Decode(s, i).r) {
      runes := [];
    } else {
      var d := Decode(s, i);
      var rest := DocumentCharsSpelled(s, i + d.width);
      runes := [d.r] + rest;
      EncodeDecoded(s, i);
      assert runes[1..] == rest;
      assert s[i..end] == s[i..i + d.width] + s[i + d.width..end];
    }
  }

  lemma DocumentNameRead(s: seq<Byte>, i: nat, maxNameLength: nat, name: Name)
    requires ReadsDocumentName(s, i, maxNameLength, name)
    ensures DocumentNameEnd(s, i, maxNameLength) == Some(i + |name|)
  {
    hide Encode, Decode, IsNCNameStartChar, IsNCNameChar;
    var runes: seq<int> :| SpelledBy(runes, name);
    var e, rest := Encode(runes[0]), EncodeAll(runes[1..]);
    Cut(s, i, e, rest);
    RuneRead(s, i, runes[0]);
    WideReplacement(runes[0]);
    DocumentCharsRead(s, i + |e|, runes[1..]);
  }

  lemma DocumentNameSpelled(s: seq<Byte>, i: nat, maxNameLength: nat)
    requires i <= |s| && DocumentNameEnd(s, i, maxNameLength).Some?
    ensures ReadsDocumentName(s, i, maxNameLength, s[i..DocumentNameEnd(s, i, maxNameLength).value])
  {
    hide Encode, Decode, IsNCNameStartChar, IsNCNameChar;
    var d, end := Decode(s, i), DocumentNameEnd(s, i, maxNameLength).value;
    var name := s[i..end];
    var rest := DocumentCharsSpelled(s, i + d.width);
    var runes := [d.r] + rest;
    EncodeDecoded(s, i);
    StartContinues(d.r);
    assert runes[1..] == rest;
    assert name == s[i..i + d.width] + s[i + d.width..end];
    assert SpelledBy(runes, name);
  }

  /** The scanner for the document reads exactly the names of production 5, up to the limit. */
  lemma DocumentNameExact(s: seq<Byte>, i: nat, maxNameLength: nat, name: Name)
    requires i <= |s|
    ensures DocumentNameEnd(s, i, maxNameLength) == Some(i + |name|) && s[i..i + |name|] == name
      <==> ReadsDocumentName(s, i, maxNameLength, name)
  {
    hide DocumentNameEnd, IsName, EndsDocumentName;
    if ReadsDocumentName(s, i, maxNameLength, name) {
      DocumentNameRead(s, i, maxNameLength, name);
    }
    if DocumentNameEnd(s, i, maxNameLength) == Some(i + |name|) {
      DocumentNameSpelled(s, i, maxNameLength);
    }
  }

  /**
   * `parseName`, from `start` on: it counts the bytes of the name and takes them from the input. It reads exactly the
   * names of production 5, up to the limit.
   */
  method ParseName(s: seq<Byte>, start: nat, maxNameLength: nat) returns (name: Option<Name>)
    requires start <= |s|
    ensures forall n :: name == Some(n) <==> ReadsDocumentName(s, start, maxNameLength, n)
  {
    hide Decode, ContinuesName, StartsName, DocumentChars, DocumentNameEnd, ReadsDocumentName;
    DocumentNamesRead(s, start, maxNameLength);
    var first := Decode(s, start);
    DocumentNameStep(s, start, maxNameLength);
    if IsError(first) || !StartsName(first.r) {
      return None;
    }
    var off := first.width;
    while start + off < |s|
      invariant first.width <= off <= |s| - start
      invariant DocumentChars(s, start + first.width) == DocumentChars(s, start + off)
      decreases |s| - off
    {
      var d := Decode(s, start + off);
      DocumentCharsOne(s, start + off);
      if IsError(d) {
        return None;
      }
      if !ContinuesName(d.r) {
        break;
      }
      off := off + d.width;
    }
    DocumentCharsOne(s, start + off);
    if maxNameLength > 0 && off > maxNameLength {
      return None;
    }
    name := Some(s[start..start + off]);
  }

  lemma DocumentNamesRead(s: seq<Byte>, i: nat, maxNameLength: nat)
    requires i <= |s|
    ensures forall n: Name :: ReadsDocumentName(s, i, maxNameLength, n) <==>
      DocumentNameEnd(s, i, maxNameLength).Some? && s[i..DocumentNameEnd(s, i, maxNameLength).value] == n
  {
    hide DocumentNameEnd, ReadsDocumentName;
    forall n: Name
      ensures ReadsDocumentName(s, i, maxNameLength, n) <==>
        DocumentNameEnd(s, i, maxNameLength).Some? && s[i..DocumentNameEnd(s, i, maxNameLength).value] == n
    {
      DocumentNameExact(s, i, maxNameLength, n);
    }
  }

  lemma DocumentCharsOne(s: seq<Byte>, i: nat)
    requires i <= |s|
    ensures DocumentChars(s, i) ==
      if i == |s| then Some(i)
      else if IsError(Decode(s, i)) then None
      else if !ContinuesName(Decode(s, i).r) then Some(i)
      else DocumentChars(s, i + Decode(s, i).width)
  {
    hide Decode, ContinuesName;
  }

  lemma DocumentNameStep(s: seq<Byte>, i: nat, maxNameLength: nat)
    requires i <= |s|
    ensures var d := Decode(s, i);
      DocumentNameEnd(s, i, maxNameLength) ==
        if IsError(d) || !StartsName(d.r) then None
        else
          var end := DocumentChars(s, i + d.width);
          if end.None? || (maxNameLength > 0 && end.value - i > maxNameLength) then None else end
  {
    hide Decode, StartsName;
  }
}
