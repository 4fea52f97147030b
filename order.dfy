/** Python's ordering of strings (code point by code point, a proper prefix
    first), and the sorted list of distinct keys that pandas' `groupby` visits
    its groups in. */
module Order {

  /** Python's `a < b` on strings. */
  predicate Less(a: string, b: string)
  {
    if a == [] then b != []
    else if b == [] then false
    else if a[0] != b[0] then a[0] < b[0]
    else Less(a[1..], b[1..])
  }

  lemma {:induction false} LessIrreflexive(a: string)
    ensures !Less(a, a)
  {
    if a != [] { LessIrreflexive(a[1..]); }
  }

  lemma {:induction false} LessTransitive(a: string, b: string, c: string)
    requires Less(a, b) && Less(b, c)
    ensures Less(a, c)
  {
    if a != [] && b != [] && c != [] && a[0] == b[0] && b[0] == c[0] {
      LessTransitive(a[1..], b[1..], c[1..]);
    }
  }

  lemma {:induction false} LessTotal(a: string, b: string)
    requires a != b
    ensures Less(a, b) || Less(b, a)
  {
    if a != [] && b != [] && a[0] == b[0] {
      assert a == [a[0]] + a[1..] && b == [b[0]] + b[1..];
      LessTotal(a[1..], b[1..]);
    }
  }

  lemma {:induction false} LessAsymmetric(a: string, b: string)
    requires Less(a, b)
    ensures !Less(b, a)
  {
    if a != [] && b != [] && a[0] == b[0] {
      LessAsymmetric(a[1..], b[1..]);
    }
  }

  /** Strictly ascending, hence duplicate-free. */
  predicate StrictlySorted(s: seq<string>) {
    forall i, j :: 0 <= i < j < |s| ==> Less(s[i], s[j])
  }

  /** Places `x` into a strictly ascending list, unless it is already there. */
  function Insert(x: string, s: seq<string>): (r: seq<string>)
    requires StrictlySorted(s)
    ensures StrictlySorted(r)
    ensures forall y :: y in r <==> y == x || y in s
  {
    if s == [] then [x]
    else if x == s[0] then s
    else if Less(x, s[0]) then
      assert forall j :: 0 < j < |s| ==> Less(x, s[j]) by {
        forall j | 0 < j < |s| ensures Less(x, s[j]) { LessTransitive(x, s[0], s[j]); }
      }
      [x] + s
    else
      LessTotal(x, s[0]);
      var t := Insert(x, s[1..]);
      assert forall y :: y in t ==> Less(s[0], y);
      [s[0]] + t
  }

  /** The distinct values of `xs` in ascending order: the order in which
      `groupby(...)` with its default `sort=True` visits the groups. */
  function SortedKeys(xs: seq<string>): (r: seq<string>)
    ensures StrictlySorted(r)
    ensures forall y :: y in r <==> y in xs
    ensures |r| <= |xs|
  {
    if xs == [] then []
    else
      var t := SortedKeys(xs[..|xs| - 1]);
      assert xs == xs[..|xs| - 1] + [xs[|xs| - 1]];
      var r := Insert(xs[|xs| - 1], t);
      SortedLength(r, xs);
      r
  }

  /** A strictly sorted list has no more elements than any list holding all of
      them. */
  lemma SortedLength(r: seq<string>, xs: seq<string>)
    requires StrictlySorted(r) && forall y :: y in r ==> y in xs
    ensures |r| <= |xs|
  {
    var R := set y | y in r;
    var X := set y | y in xs;
    assert R <= X;
    DistinctCard(r);
    SeqSetCard(xs);
    assert X == R + (X - R) && R * (X - R) == {};
  }

  lemma {:induction false} DistinctCard(r: seq<string>)
    requires StrictlySorted(r)
    ensures |set y | y in r| == |r|
  {
    if r != [] {
      var t := r[1..];
      DistinctCard(t);
      assert (set y | y in r) == (set y | y in t) + {r[0]};
      forall y | y in t ensures y != r[0] {
        var j :| 0 <= j < |t| && t[j] == y;
        assert Less(r[0], r[j + 1]);
        LessIrreflexive(r[0]);
      }
    }
  }

  lemma {:induction false} SeqSetCard(xs: seq<string>)
    ensures |set y | y in xs| <= |xs|
  {
    if xs != [] {
      SeqSetCard(xs[1..]);
      assert (set y | y in xs) == (set y | y in xs[1..]) + {xs[0]};
    }
  }

  /** A strictly ascending list repeats no element. */
  lemma SortedDistinct(keys: seq<string>, i: nat)
    requires StrictlySorted(keys) && i < |keys|
    ensures keys[i] !in keys[..i]
  {
    forall j | 0 <= j < i
      ensures keys[j] != keys[i]
    {
      assert Less(keys[j], keys[i]);
      LessIrreflexive(keys[i]);
    }
  }

  lemma SortedIsDistinct(keys: seq<string>)
    requires StrictlySorted(keys)
    ensures forall i, j :: 0 <= i < j < |keys| ==> keys[i] != keys[j]
  {
    forall i, j | 0 <= i < j < |keys|
      ensures keys[i] != keys[j]
    {
      LessIrreflexive(keys[i]);
    }
  }

  /** A non-empty list holding only `x` has the single key `x`. */
  lemma SortedKeysConstant(xs: seq<string>, x: string)
    requires xs != [] && forall y :: y in xs ==> y == x
    ensures SortedKeys(xs) == [x]
  {
    var r := SortedKeys(xs);
    assert xs[0] in xs;
    DistinctCard(r);
    assert (set y | y in r) == {x};
    assert |r| == 1;
    assert r[0] in r;
  }
}
