/**
 * The ascending order of `java.lang.String.compareTo`, restricted to the
 * case that matters here (characters compared by code): the first
 * differing character decides, and a proper prefix comes first.
 * It is the key order of the `TreeMap`s of the corrector.
 */
module Lex {

  predicate Less(a: string, b: string)
    decreases |a|
  {
    |b| > 0 && (|a| == 0 || a[0] < b[0] || (a[0] == b[0] && Less(a[1..], b[1..])))
  }

  predicate LessEq(a: string, b: string) {
    a == b || Less(a, b)
  }

  predicate StrictlySorted(s: seq<string>) {
    forall i, j :: 0 <= i < j < |s| ==> Less(s[i], s[j])
  }

  lemma {:induction false} LessIrreflexive(a: string)
    ensures !Less(a, a)
    decreases |a|
  {
    if |a| > 0 {
      LessIrreflexive(a[1..]);
    }
  }

  lemma {:induction false} LessAsymmetric(a: string, b: string)
    requires Less(a, b)
    ensures !Less(b, a)
    decreases |a|
  {
    if |a| > 0 && a[0] == b[0] {
      LessAsymmetric(a[1..], b[1..]);
    }
  }

  lemma {:induction false} LessTransitive(a: string, b: string, c: string)
    requires Less(a, b) && Less(b, c)
    ensures Less(a, c)
    decreases |a|
  {
    if |a| > 0 && a[0] == b[0] && b[0] == c[0] {
      LessTransitive(a[1..], b[1..], c[1..]);
    }
  }

  /** Any two distinct strings are ordered one way or the other. */
  lemma {:induction false} LessTotal(a: string, b: string)
    requires a != b
    ensures Less(a, b) || Less(b, a)
    decreases |a|
  {
    if |a| > 0 && |b| > 0 && a[0] == b[0] {
      assert a == [a[0]] + a[1..] && b == [b[0]] + b[1..];
      LessTotal(a[1..], b[1..]);
    }
  }

  /** A proper prefix sorts before the longer string. */
  lemma {:induction false} PrefixLess(a: string, b: string)
    requires |a| < |b| && b[..|a|] == a
    ensures Less(a, b)
    decreases |a|
  {
    if |a| > 0 {
      assert a[0] == b[0];
      assert b[1..][..|a| - 1] == a[1..];
      PrefixLess(a[1..], b[1..]);
    }
  }

  /** Two strings that agree up to position `k` are ordered by their characters at `k`. */
  lemma {:induction false} ForkLess(a: string, b: string, k: nat)
    requires k < |a| && k < |b| && a[..k] == b[..k] && a[k] < b[k]
    ensures Less(a, b)
    decreases k
  {
    if k > 0 {
      assert a[0] == a[..k][0] == b[..k][0] == b[0];
      assert a[1..][..k - 1] == a[..k][1..] == b[..k][1..] == b[1..][..k - 1];
      ForkLess(a[1..], b[1..], k - 1);
    }
  }

  lemma LessAsymmetricAll()
    ensures forall a, b :: Less(a, b) ==> !Less(b, a)
  {
    forall a, b | Less(a, b) {
      LessAsymmetric(a, b);
    }
  }

  /** A least element of a non-empty set of strings. */
  ghost function Least(s: set<string>): (k: string)
    requires s != {}
    ensures k in s
    ensures forall x :: x in s ==> LessEq(k, x)
    decreases s
  {
    var y :| y in s;
    if s == {y} then y
    else
      var m := Least(s - {y});
      if Less(y, m) then
        BelowMin(y, m, s - {y});
        y
      else
        LessTotal(m, y);
        m
  }

  lemma MinExists(s: set<string>)
    requires s != {}
    ensures exists k :: k in s && forall x :: x in s ==> LessEq(k, x)
  {
    var k := Least(s);
  }

  /** A string below the least element of `rest` is below every element of it. */
  lemma BelowMin(y: string, m: string, rest: set<string>)
    requires Less(y, m) && forall x :: x in rest ==> LessEq(m, x)
    ensures forall x :: x in rest ==> Less(y, x)
  {
    forall x | x in rest
      ensures Less(y, x)
    {
      if m != x {
        LessTransitive(y, m, x);
      }
    }
  }

  /** The least key of a non-empty set, the first key a `TreeMap` yields. */
  function MinKey(s: set<string>): (k: string)
    requires s != {}
    ensures k in s
    ensures forall x :: x in s ==> LessEq(k, x)
  {
    MinExists(s);
    LessAsymmetricAll();
    var k :| k in s && forall x :: x in s ==> LessEq(k, x);
    k
  }

  /** The keys of a set in the order a `TreeMap` iterates them. */
  function AscendingKeys(s: set<string>): (r: seq<string>)
    ensures forall x :: x in r <==> x in s
    ensures |r| == |s|
    ensures StrictlySorted(r)
    decreases s
  {
    if s == {} then []
    else
      var k := MinKey(s);
      var rest := AscendingKeys(s - {k});
      assert forall j :: 0 <= j < |rest| ==> rest[j] in s - {k};
      [k] + rest
  }

  /** Two sorted runs, every element of the first below every element of the second, sort together. */
  lemma SortedConcat(a: seq<string>, b: seq<string>)
    requires StrictlySorted(a) && StrictlySorted(b)
    requires forall x, y :: x in a && y in b ==> Less(x, y)
    ensures StrictlySorted(a + b)
  {
    forall i, j | 0 <= i < j < |a + b|
      ensures Less((a + b)[i], (a + b)[j])
    {
      if i < |a| && j >= |a| {
        assert (a + b)[i] in a && (a + b)[j] in b;
      }
    }
  }

  /** A strictly sorted sequence holds every string at most once. */
  lemma SortedDistinct(s: seq<string>)
    requires StrictlySorted(s)
    ensures forall i, j :: 0 <= i < j < |s| ==> s[i] != s[j]
  {
    forall i, j | 0 <= i < j < |s|
      ensures s[i] != s[j]
    {
      LessIrreflexive(s[i]);
    }
  }
}
