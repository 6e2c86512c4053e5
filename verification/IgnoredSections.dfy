/** The loop that skips an ignored conditional section, and the grammar of what it may skip. */
module IgnoredSections {
  import opened CharRefs
  import EntityText
  import opened Wrappers

  type Rune = int

  const OPEN: seq<Rune> := ['<' as int, '!' as int, '[' as int]
  const CLOSE: seq<Rune> := [']' as int, ']' as int, '>' as int]

  /** A character that may stand in a document as itself. */
  predicate IsLiteral(r: Rune, xml11: bool) {
    IsChar(r, xml11) && (xml11 ==> !EntityText.IsRestricted11(r))
  }

  /** What may not: in XML 1.1, most controls as well. */
  lemma LiteralExactly(r: Rune, xml11: bool)
    ensures !IsLiteral(r, xml11) <==>
      r <= 0 || r > 0x10FFFF || 0xD800 <= r <= 0xDFFF || r == 0xFFFE || r == 0xFFFF
      || (r < 0x20 && r != 9 && r != 10 && r != 13)
      || (xml11 && 0x7F <= r < 0xA0 && r != 0x85)
  {
  }

  predicate At(s: seq<Rune>, i: nat, d: seq<Rune>) {
    |d| == 3 && i + 3 <= |s| && s[i] == d[0] && s[i + 1] == d[1] && s[i + 2] == d[2]
  }

  // ----- the grammar -----

  /** Production 64: text, or text, a nested section and what follows it. */
  datatype Contents = Plain(text: seq<Rune>) | Nested(text: seq<Rune>, inner: Contents, rest: Contents)

  /** Production 65: characters among which neither delimiter stands. */
  predicate IsIgnore(t: seq<Rune>, xml11: bool) {
    forall i :: 0 <= i < |t| ==> IsLiteral(t[i], xml11) && !At(t, i, OPEN) && !At(t, i, CLOSE)
  }

  predicate WellFormed(c: Contents, xml11: bool) {
    IsIgnore(c.text, xml11) && (c.Nested? ==> WellFormed(c.inner, xml11) && WellFormed(c.rest, xml11))
  }

  function Spell(c: Contents): seq<Rune> {
    match c
    case Plain(text) => text
    case Nested(text, inner, rest) => text + OPEN + Spell(inner) + CLOSE + Spell(rest)
  }

  // ----- the loop -----

  /** Where the loop stops, from `i` on with `depth` sections open; nothing on a bad character or at the end. */
  function Skip(s: seq<Rune>, i: nat, depth: nat, xml11: bool): (n: Option<nat>)
    requires i <= |s|
    ensures n.Some? ==> i <= n.value <= |s|
    decreases |s| - i
  {
    if depth == 0 then Some(i)
    else if At(s, i, OPEN) then Skip(s, i + 3, depth + 1, xml11)
    else if At(s, i, CLOSE) then Skip(s, i + 3, depth - 1, xml11)
    else if i == |s| || !IsLiteral(s[i], xml11) then None
    else Skip(s, i + 1, depth, xml11)
  }

  method SkipIgnored(s: seq<Rune>, start: nat, xml11: bool) returns (end: Option<nat>)
    requires start <= |s|
    ensures end == Skip(s, start, 1, xml11)
  {
    var i, depth := start, 1;
    while depth > 0
      invariant 0 <= i <= |s| && 0 <= depth && Skip(s, start, 1, xml11) == Skip(s, i, depth, xml11)
      decreases |s| - i, depth
    {
      if i == |s| {
        return None;
      }
      if At(s, i, OPEN) {
        depth := depth + 1;
        i := i + 3;
        continue;
      }
      if At(s, i, CLOSE) {
        depth := depth - 1;
        i := i + 3;
        continue;
      }
      if !IsLiteral(s[i], xml11) {
        return None;
      }
      i := i + 1;
    }
    end := Some(i);
  }

  // ----- everything the grammar allows is skipped -----

  /** The part of `s` from `i` on starts with `t`. */
  predicate StandsAt(s: seq<Rune>, i: nat, t: seq<Rune>) {
    i + |t| <= |s| && s[i..i + |t|] == t
  }

  lemma StandsApart(s: seq<Rune>, i: nat, a: seq<Rune>, b: seq<Rune>)
    requires StandsAt(s, i, a + b)
    ensures StandsAt(s, i, a) && StandsAt(s, i + |a|, b)
  {
    assert (a + b)[..|a|] == a && (a + b)[|a|..] == b;
    assert s[i..i + |a|] == s[i..i + |a + b|][..|a|];
    assert s[i + |a|..i + |a| + |b|] == s[i..i + |a + b|][|a|..];
  }

  lemma StandsTogether(s: seq<Rune>, i: nat, a: seq<Rune>, b: seq<Rune>)
    requires StandsAt(s, i, a) && StandsAt(s, i + |a|, b)
    ensures StandsAt(s, i, a + b)
  {
    assert s[i..i + |a + b|] == s[i..i + |a|] + s[i + |a|..i + |a| + |b|];
  }

  lemma StandsIsAt(s: seq<Rune>, i: nat, d: seq<Rune>)
    requires |d| == 3
    ensures StandsAt(s, i, d) <==> At(s, i, d)
  {
    if StandsAt(s, i, d) {
      assert s[i] == s[i..i + 3][0] && s[i + 1] == s[i..i + 3][1] && s[i + 2] == s[i..i + 3][2];
    }
    if At(s, i, d) {
      assert s[i..i + 3] == [s[i], s[i + 1], s[i + 2]] && d == [d[0], d[1], d[2]];
    }
  }

  /** Text is skipped up to the delimiter behind it; no delimiter starts in it. */
  lemma {:induction false} TextSkipped(s: seq<Rune>, i: nat, t: seq<Rune>, depth: nat, xml11: bool)
    requires IsIgnore(t, xml11) && StandsAt(s, i, t) && (At(s, i + |t|, OPEN) || At(s, i + |t|, CLOSE))
    ensures Skip(s, i, depth, xml11) == if depth == 0 then Some(i) else Skip(s, i + |t|, depth, xml11)
    decreases |t|
  {
    if t != [] && depth > 0 {
      var u := t[1..];
      assert t == [t[0]] + u;
      StandsApart(s, i, [t[0]], u);
      assert s[i] == s[i..i + 1][0] == t[0];
      forall k | 0 <= k < |u| ensures IsLiteral(u[k], xml11) && !At(u, k, OPEN) && !At(u, k, CLOSE) {
        assert u[k] == t[k + 1];
        assert !At(t, k + 1, OPEN) && !At(t, k + 1, CLOSE);
      }
      NoneBefore(s, i, t);
      assert !At(t, 0, OPEN) && !At(t, 0, CLOSE);
      TextSkipped(s, i + 1, u, depth, xml11);
    }
  }

  lemma NoneBefore(s: seq<Rune>, i: nat, t: seq<Rune>)
    requires t != [] && StandsAt(s, i, t) && (At(s, i + |t|, OPEN) || At(s, i + |t|, CLOSE))
    ensures At(s, i, OPEN) ==> At(t, 0, OPEN)
    ensures At(s, i, CLOSE) ==> At(t, 0, CLOSE)
  {
    assert s[i] == s[i..i + |t|][0];
    if |t| >= 2 {
      assert s[i + 1] == s[i..i + |t|][1];
    }
    if |t| >= 3 {
      assert s[i + 2] == s[i..i + |t|][2];
    }
  }

  lemma DelimiterSkipped(s: seq<Rune>, i: nat, depth: nat, xml11: bool)
    requires depth > 0
    ensures At(s, i, OPEN) ==> Skip(s, i, depth, xml11) == Skip(s, i + 3, depth + 1, xml11)
    ensures At(s, i, CLOSE) ==> Skip(s, i, depth, xml11) == Skip(s, i + 3, depth - 1, xml11)
  {
  }

  /** Contents and the delimiter that closes them are skipped, and one section fewer is open. */
  lemma {:induction false} ContentsSkipped(s: seq<Rune>, i: nat, c: Contents, depth: nat, xml11: bool)
    requires WellFormed(c, xml11) && StandsAt(s, i, Spell(c) + CLOSE)
    ensures i + |Spell(c)| + 3 <= |s|
    ensures Skip(s, i, depth + 1, xml11) == Skip(s, i + |Spell(c)| + 3, depth, xml11)
    decreases c
  {
    hide Skip, StandsAt, At, IsIgnore;
    StandsApart(s, i, Spell(c), CLOSE);
    StandsIsAt(s, i + |Spell(c)|, CLOSE);
    InBounds(s, i + |Spell(c)|, CLOSE);
    match c
    case Plain(text) =>
      TextSkipped(s, i, text, depth + 1, xml11);
      DelimiterSkipped(s, i + |text|, depth + 1, xml11);
    case Nested(text, inner, rest) =>
      var j := i + |text|;
      var k := j + 3 + |Spell(inner)|;
      NestedText(s, i, text, Spell(inner), Spell(rest));
      InBounds(s, j, OPEN);
      TextSkipped(s, i, text, depth + 1, xml11);
      DelimiterSkipped(s, j, depth + 1, xml11);
      ContentsSkipped(s, j + 3, inner, depth + 1, xml11);
      ContentsSkipped(s, k + 3, rest, depth, xml11);
  }

  lemma InBounds(s: seq<Rune>, i: nat, d: seq<Rune>)
    requires At(s, i, d)
    ensures i + 3 <= |s|
  {
  }

  lemma NestedText(s: seq<Rune>, i: nat, text: seq<Rune>, inner: seq<Rune>, rest: seq<Rune>)
    requires StandsAt(s, i, text + OPEN + inner + CLOSE + rest + CLOSE)
    ensures StandsAt(s, i, text) && At(s, i + |text|, OPEN)
    ensures StandsAt(s, i + |text| + 3, inner + CLOSE)
    ensures StandsAt(s, i + |text| + 3 + |inner| + 3, rest + CLOSE)
  {
    var a, b := inner + CLOSE, rest + CLOSE;
    assert text + OPEN + inner + CLOSE + rest + CLOSE == (text + (OPEN + a)) + b;
    StandsApart(s, i, text + (OPEN + a), b);
    StandsApart(s, i, text, OPEN + a);
    StandsApart(s, i + |text|, OPEN, a);
    StandsIsAt(s, i + |text|, OPEN);
  }

  // ----- and nothing else -----

  function Prepended(r: Rune, c: Contents): Contents {
    c.(text := [r] + c.text)
  }

  lemma {:induction false} SkippedIsContents(s: seq<Rune>, i: nat, depth: nat, xml11: bool) returns (c: Contents, j: nat)
    requires i <= |s| && depth > 0 && Skip(s, i, depth, xml11).Some?
    ensures WellFormed(c, xml11) && StandsAt(s, i, Spell(c)) && j == i + |Spell(c)| && At(s, j, CLOSE)
    ensures Skip(s, i, depth, xml11) == Skip(s, j + 3, depth - 1, xml11)
    decreases |s| - i
  {
    hide Skip, StandsAt, At, IsIgnore, IsLiteral;
    OneSkipped(s, i, depth, xml11);
    DelimiterSkipped(s, i, depth, xml11);
    NoIgnore(xml11);
    if At(s, i, OPEN) {
      var inner, k := SkippedIsContents(s, i + 3, depth + 1, xml11);
      InBounds(s, k, CLOSE);
      var rest;
      rest, j := SkippedIsContents(s, k + 3, depth, xml11);
      c := Nested([], inner, rest);
      NestedStands(s, i, Spell(inner), Spell(rest));
    } else if At(s, i, CLOSE) {
      c, j := Plain([]), i;
      NothingStands(s, i);
    } else {
      var more;
      more, j := SkippedIsContents(s, i + 1, depth, xml11);
      c := Prepended(s[i], more);
      OneStands(s, i, Spell(more));
      SpellPrepended(s[i], more);
      TextPrepended(s, i, more, xml11);
    }
  }

  lemma OneSkipped(s: seq<Rune>, i: nat, depth: nat, xml11: bool)
    requires i <= |s| && depth > 0 && Skip(s, i, depth, xml11).Some?
    ensures i < |s| && (At(s, i, OPEN) || At(s, i, CLOSE) ==> i + 3 <= |s|)
    ensures !At(s, i, OPEN) && !At(s, i, CLOSE) ==>
      IsLiteral(s[i], xml11) && Skip(s, i, depth, xml11) == Skip(s, i + 1, depth, xml11)
  {
  }

  lemma NoIgnore(xml11: bool)
    ensures IsIgnore([], xml11)
  {
  }

  lemma NothingStands(s: seq<Rune>, i: nat)
    requires i <= |s|
    ensures StandsAt(s, i, [])
  {
  }

  lemma OneStands(s: seq<Rune>, i: nat, t: seq<Rune>)
    requires i < |s| && StandsAt(s, i + 1, t)
    ensures StandsAt(s, i, [s[i]] + t)
  {
    assert s[i..i + 1] == [s[i]];
    StandsTogether(s, i, [s[i]], t);
  }

  lemma NestedStands(s: seq<Rune>, i: nat, inner: seq<Rune>, rest: seq<Rune>)
    requires At(s, i, OPEN) && StandsAt(s, i + 3, inner) && At(s, i + 3 + |inner|, CLOSE)
    requires StandsAt(s, i + 3 + |inner| + 3, rest)
    ensures StandsAt(s, i, [] + OPEN + inner + CLOSE + rest)
  {
    StandsIsAt(s, i, OPEN);
    StandsIsAt(s, i + 3 + |inner|, CLOSE);
    assert [] + OPEN == OPEN;
    StandsTogether(s, i, OPEN, inner);
    StandsTogether(s, i, OPEN + inner, CLOSE);
    StandsTogether(s, i, OPEN + inner + CLOSE, rest);
  }

  lemma SpellPrepended(r: Rune, c: Contents)
    ensures Spell(Prepended(r, c)) == [r] + Spell(c)
  {
    if c.Nested? {
      assert [r] + c.text + OPEN + Spell(c.inner) + CLOSE + Spell(c.rest)
        == [r] + (c.text + OPEN + Spell(c.inner) + CLOSE + Spell(c.rest));
    }
  }

  /** A character that starts no delimiter may stand before the text. */
  lemma TextPrepended(s: seq<Rune>, i: nat, c: Contents, xml11: bool)
    requires i < |s| && IsLiteral(s[i], xml11) && !At(s, i, OPEN) && !At(s, i, CLOSE)
    requires WellFormed(c, xml11) && StandsAt(s, i, [s[i]] + Spell(c))
    ensures WellFormed(Prepended(s[i], c), xml11)
  {
    var t := [s[i]] + c.text;
    assert c.text <= Spell(c);
    StandsText(s, i, c);
    forall k | 0 <= k < |t| ensures IsLiteral(t[k], xml11) && !At(t, k, OPEN) && !At(t, k, CLOSE) {
      if k > 0 {
        assert t[k] == c.text[k - 1];
        assert !At(c.text, k - 1, OPEN) && !At(c.text, k - 1, CLOSE);
      }
    }
  }

  lemma StandsText(s: seq<Rune>, i: nat, c: Contents)
    requires i < |s| && StandsAt(s, i, [s[i]] + Spell(c))
    ensures StandsAt(s, i, [s[i]] + c.text)
  {
    var t := [s[i]] + c.text;
    var more := Spell(c)[|c.text|..];
    assert Spell(c) == c.text + more;
    assert [s[i]] + Spell(c) == t + more;
    StandsApart(s, i, t, more);
  }

  lemma SkipDone(s: seq<Rune>, xml11: bool)
    ensures forall i :: 0 <= i <= |s| ==> Skip(s, i, 0, xml11) == Some(i)
  {
  }

  /**
   * The loop accepts exactly the contents of an ignored section and the delimiter that matches its start, whatever is
   * nested in it, and stops right behind that delimiter.
   */
  lemma SkipExact(s: seq<Rune>, i: nat, n: nat, xml11: bool)
    requires i <= |s|
    ensures Skip(s, i, 1, xml11) == Some(n) <==>
      exists c: Contents :: WellFormed(c, xml11) && StandsAt(s, i, Spell(c) + CLOSE) && n == i + |Spell(c)| + 3
  {
    hide StandsAt, At, WellFormed;
    SkipDone(s, xml11);
    if Skip(s, i, 1, xml11) == Some(n) {
      var c, j := SkippedIsContents(s, i, 1, xml11);
      StandsIsAt(s, j, CLOSE);
      StandsTogether(s, i, Spell(c), CLOSE);
    }
    if c: Contents :| WellFormed(c, xml11) && StandsAt(s, i, Spell(c) + CLOSE) && n == i + |Spell(c)| + 3 {
      ContentsSkipped(s, i, c, 0, xml11);
    }
  }

  /** What ends a section and what opens one inside, character by character. */
  lemma Delimiters(xml11: bool)
    ensures Skip([']' as int, ']' as int, '>' as int], 0, 1, xml11) == Some(3)
    ensures Skip(['<' as int, '!' as int, '[' as int, ']' as int, ']' as int, '>' as int], 0, 1, xml11) == None
    ensures
      Skip(
        ['<' as int, '!' as int, '[' as int, ']' as int, ']' as int, '>' as int, ']' as int, ']' as int, '>' as int],
        0, 1, xml11) == Some(9)
  {
    var close, open := [']' as int, ']' as int, '>' as int], ['<' as int, '!' as int, '[' as int];
    assert Skip(close, 3, 0, xml11) == Some(3);
    var one := open + close;
    assert Skip(one, 6, 1, xml11) == None;
    assert Skip(one, 3, 2, xml11) == None;
    var two := one + close;
    assert Skip(two, 9, 0, xml11) == Some(9);
    assert Skip(two, 6, 1, xml11) == Some(9);
    assert Skip(two, 3, 2, xml11) == Some(9);
    assert two == ['<' as int, '!' as int, '[' as int, ']' as int, ']' as int, '>' as int, ']' as int, ']' as int, '>' as int];
    assert one == ['<' as int, '!' as int, '[' as int, ']' as int, ']' as int, '>' as int];
  }
}
