/** Sequences of distinct elements, and the removal of a set of elements from one. */
module Sequences {

  ghost predicate Distinct<T>(s: seq<T>) {
    forall i, j :: 0 <= i < j < |s| ==> s[i] != s[j]
  }

  /** `s` without the elements of `d`, the others in their order. */
  ghost function Without<T(!new)>(s: seq<T>, d: set<T>): (r: seq<T>)
    ensures forall y :: y in r <==> y in s && y !in d
  {
    if s == [] then []
    else if s[0] in d then Without(s[1..], d)
    else [s[0]] + Without(s[1..], d)
  }

  lemma {:induction false} WithoutAppend<T(!new)>(s: seq<T>, t: seq<T>, d: set<T>)
    ensures Without(s + t, d) == Without(s, d) + Without(t, d)
  {
    if s == [] {
      assert s + t == t;
    } else {
      assert (s + t)[1..] == s[1..] + t;
      WithoutAppend(s[1..], t, d);
    }
  }

  lemma {:induction false} WithoutAbsent<T(!new)>(s: seq<T>, d: set<T>)
    requires forall y :: y in s ==> y !in d
    ensures Without(s, d) == s
  {
    if s != [] {
      assert forall y :: y in s[1..] ==> y in s;
      WithoutAbsent(s[1..], d);
    }
  }

  lemma {:induction false} WithoutAll<T(!new)>(s: seq<T>, d: set<T>)
    requires forall y :: y in s ==> y in d
    ensures Without(s, d) == []
  {
    if s != [] {
      WithoutAll(s[1..], d);
    }
  }

  lemma {:induction false} WithoutUnion<T(!new)>(s: seq<T>, d: set<T>, e: set<T>)
    ensures Without(Without(s, d), e) == Without(s, d + e)
  {
    if s != [] {
      WithoutUnion(s[1..], d, e);
      if s[0] !in d {
        assert ([s[0]] + Without(s[1..], d))[1..] == Without(s[1..], d);
      }
    }
  }

  lemma {:induction false} WithoutDistinct<T(!new)>(s: seq<T>, d: set<T>)
    requires Distinct(s)
    ensures Distinct(Without(s, d))
  {
    if s != [] {
      assert s == [s[0]] + s[1..];
      assert s[0] !in s[1..];
      WithoutDistinct(s[1..], d);
    }
  }

  /** Removing the one element at index `k`. */
  lemma WithoutOne<T(!new)>(s: seq<T>, k: nat)
    requires Distinct(s) && k < |s|
    ensures Without(s, {s[k]}) == s[..k] + s[k + 1..]
  {
    hide Without, Distinct;
    var a, x, b, d := s[..k], [s[k]], s[k + 1..], {s[k]};
    Parted(s, k);
    WithoutAppend(a, x + b, d);
    WithoutAppend(x, b, d);
    WithoutAll(x, d);
    WithoutAbsent(a, d);
    WithoutAbsent(b, d);
    NothingBetween(a, b);
  }

  lemma Parted<T>(s: seq<T>, k: nat)
    requires Distinct(s) && k < |s|
    ensures s == s[..k] + ([s[k]] + s[k + 1..])
    ensures s[k] !in s[..k] && s[k] !in s[k + 1..]
  {
  }

  lemma NothingBetween<T>(a: seq<T>, b: seq<T>)
    ensures a + ([] + b) == a + b
  {
  }

  lemma DistinctAppend<T>(s: seq<T>, t: seq<T>)
    requires Distinct(s) && Distinct(t) && forall i, j :: 0 <= i < |s| && 0 <= j < |t| ==> s[i] != t[j]
    ensures Distinct(s + t)
  {
  }

  /** What precedes the first `x` in `s`. */
  ghost function Before<T>(s: seq<T>, x: T): seq<T> {
    if s == [] || s[0] == x then [] else [s[0]] + Before(s[1..], x)
  }

  /** What follows the first `x` in `s`. */
  ghost function After<T>(s: seq<T>, x: T): seq<T> {
    if s == [] then [] else if s[0] == x then s[1..] else After(s[1..], x)
  }

  lemma {:induction false} CutAt<T>(s: seq<T>, x: T)
    requires x in s
    ensures s == Before(s, x) + [x] + After(s, x)
  {
    if s[0] != x {
      CutAt(s[1..], x);
      assert s == [s[0]] + s[1..];
    }
  }

  /** Removing other elements commutes with cutting at `x`. */
  lemma {:induction false} CutWithout<T(!new)>(s: seq<T>, d: set<T>, x: T)
    requires x in s && x !in d
    ensures Before(Without(s, d), x) == Without(Before(s, x), d)
    ensures After(Without(s, d), x) == Without(After(s, x), d)
  {
    if s[0] != x {
      CutWithout(s[1..], d, x);
      assert ([s[0]] + Before(s[1..], x))[1..] == Before(s[1..], x);
      if s[0] !in d {
        assert ([s[0]] + Without(s[1..], d))[1..] == Without(s[1..], d);
      }
    } else {
      assert ([s[0]] + Without(s[1..], d))[1..] == Without(s[1..], d);
    }
  }
}
