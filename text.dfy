/** String operations of Python's `str` that the pipeline relies on:
    substring search (`in`), `split` on one separator character, `join`, and
    `replace(pat, "")`. */
module Text {

  /** `pat` occurs in `s` starting at index `i`. */
  predicate OccursAt(s: string, pat: string, i: nat) {
    i + |pat| <= |s| && s[i..i + |pat|] == pat
  }

  /** Python's `pat in s`. */
  predicate Contains(s: string, pat: string)
    decreases |s|
  {
    |pat| <= |s| && (s[..|pat|] == pat || (|s| > 0 && Contains(s[1..], pat)))
  }

  lemma {:induction false} ContainsIff(s: string, pat: string)
    ensures Contains(s, pat) <==> exists i :: 0 <= i && OccursAt(s, pat, i)
    decreases |s|
  {
    if |pat| <= |s| && s[..|pat|] != pat && |s| > 0 {
      ContainsIff(s[1..], pat);
      if Contains(s[1..], pat) {
        var i :| 0 <= i && OccursAt(s[1..], pat, i);
        assert s[i + 1..i + 1 + |pat|] == s[1..][i..i + |pat|];
        assert OccursAt(s, pat, i + 1);
      }
      if exists i :: 0 <= i && OccursAt(s, pat, i) {
        var i :| 0 <= i && OccursAt(s, pat, i);
        assert i != 0;
        assert s[1..][i - 1..i - 1 + |pat|] == s[i..i + |pat|];
        assert OccursAt(s[1..], pat, i - 1);
      }
    } else if |pat| <= |s| && s[..|pat|] == pat {
      assert OccursAt(s, pat, 0);
    }
  }

  /** Python's `s.split(c)`: the fields between occurrences of `c`. */
  function Split(s: string, c: char): (r: seq<string>)
    ensures |r| >= 1
    ensures forall k :: 0 <= k < |r| ==> c !in r[k]
    ensures |r| == 1 <==> c !in s
  {
    if s == [] then [""]
    else if s[0] == c then [""] + Split(s[1..], c)
    else
      var rest := Split(s[1..], c);
      [[s[0]] + rest[0]] + rest[1..]
  }

  /** Python's `sep.join(fs)` for a one-character separator: every
      character of every field, the separator between fields, and nothing
      else. */
  function Join(fs: seq<string>, c: char): (r: string)
    ensures forall k, ch :: 0 <= k < |fs| && ch in fs[k] ==> ch in r
    ensures forall ch :: ch in r ==> ch == c || exists k :: 0 <= k < |fs| && ch in fs[k]
    ensures |fs| >= 2 ==> c in r
  {
    if fs == [] then ""
    else if |fs| == 1 then fs[0]
    else
      var rest := Join(fs[1..], c);
      assert forall k :: 1 <= k < |fs| ==> fs[1..][k - 1] == fs[k];
      fs[0] + [c] + rest
  }

  /** Joining the fields of a split gives back the original string. */
  lemma {:induction false} JoinSplit(s: string, c: char)
    ensures Join(Split(s, c), c) == s
  {
    if s == [] {
    } else if s[0] == c {
      JoinSplit(s[1..], c);
      var rest := Split(s[1..], c);
      assert Join([""] + rest, c) == "" + [c] + Join(rest, c);
    } else {
      JoinSplit(s[1..], c);
      var rest := Split(s[1..], c);
      var r := [[s[0]] + rest[0]] + rest[1..];
      if |rest| == 1 {
        assert r == [[s[0]] + rest[0]];
      } else {
        assert r[1..] == rest[1..];
        assert Join(rest, c) == rest[0] + [c] + Join(rest[1..], c);
      }
    }
  }

  /** Splitting a join of separator-free fields gives back the fields. */
  lemma {:induction false} SplitJoin(fs: seq<string>, c: char)
    requires |fs| >= 1
    requires forall k :: 0 <= k < |fs| ==> c !in fs[k]
    ensures Split(Join(fs, c), c) == fs
    decreases |fs|, |fs[0]|
  {
    if |fs| == 1 {
      SplitNoSep(fs[0], c);
    } else if fs[0] == [] {
      SplitJoin(fs[1..], c);
      SplitJoinEmptyHead(fs, c);
    } else {
      var t := [fs[0][1..]] + fs[1..];
      assert t[1..] == fs[1..];
      assert forall k :: 0 <= k < |t| ==> t[k] == fs[0][1..] || t[k] == fs[k];
      SplitJoin(t, c);
      SplitJoinConsHead(fs, t, c);
    }
  }

  lemma SplitJoinEmptyHead(fs: seq<string>, c: char)
    requires |fs| >= 2 && fs[0] == []
    requires Split(Join(fs[1..], c), c) == fs[1..]
    ensures Split(Join(fs, c), c) == fs
  {
    assert Join(fs, c) == [c] + Join(fs[1..], c);
    SplitSep(Join(fs[1..], c), c);
    assert [""] + fs[1..] == fs;
  }

  lemma SplitJoinConsHead(fs: seq<string>, t: seq<string>, c: char)
    requires |fs| >= 2 && fs[0] != [] && c !in fs[0]
    requires t == [fs[0][1..]] + fs[1..]
    requires Split(Join(t, c), c) == t
    ensures Split(Join(fs, c), c) == fs
  {
    var x := fs[0][0];
    assert t[1..] == fs[1..];
    assert Join(fs, c) == [x] + Join(t, c);
    assert x in fs[0];
    SplitCons(x, Join(t, c), c);
    assert [x] + fs[0][1..] == fs[0];
    assert [[x] + t[0]] + t[1..] == fs;
  }

  /** Unfolding `Split` at a leading separator. */
  lemma SplitSep(s: string, c: char)
    ensures Split([c] + s, c) == [""] + Split(s, c)
  {
    assert ([c] + s)[1..] == s;
  }

  /** Unfolding `Split` at a leading non-separator. */
  lemma SplitCons(x: char, s: string, c: char)
    requires x != c
    ensures Split([x] + s, c) == [[x] + Split(s, c)[0]] + Split(s, c)[1..]
  {
    assert ([x] + s)[1..] == s;
  }

  lemma {:induction false} SplitNoSep(s: string, c: char)
    requires c !in s
    ensures Split(s, c) == [s]
  {
    if s != [] {
      SplitNoSep(s[1..], c);
      assert [s[0]] + s[1..] == s;
    }
  }

  /** A separator splits a string into the fields before it and after it. */
  lemma {:induction false} SplitConcat(d: string, f: string, c: char)
    ensures Split(d + [c] + f, c) == Split(d, c) + Split(f, c)
  {
    if d == [] {
      assert d + [c] + f == [c] + f;
      assert ([c] + f)[1..] == f;
    } else {
      SplitConcat(d[1..], f, c);
      assert d + [c] + f == [d[0]] + (d[1..] + [c] + f);
      assert d == [d[0]] + d[1..];
      SplitConcatStep(d[0], d[1..], f, c);
    }
  }

  lemma SplitConcatStep(x: char, e: string, f: string, c: char)
    requires Split(e + [c] + f, c) == Split(e, c) + Split(f, c)
    ensures Split([x] + (e + [c] + f), c) == Split([x] + e, c) + Split(f, c)
  {
    if x == c {
      SplitSep(e + [c] + f, c);
      SplitSep(e, c);
      assert [""] + (Split(e, c) + Split(f, c)) == ([""] + Split(e, c)) + Split(f, c);
    } else {
      SplitCons(x, e + [c] + f, c);
      SplitCons(x, e, c);
      ConsHeadAppend([x], Split(e, c), Split(f, c));
    }
  }

  lemma ConsHeadAppend(p: string, a: seq<string>, b: seq<string>)
    requires |a| >= 1
    ensures [p + (a + b)[0]] + (a + b)[1..] == ([p + a[0]] + a[1..]) + b
  {
    assert (a + b)[0] == a[0];
    assert (a + b)[1..] == a[1..] + b;
  }

  /** Python's `s.replace(pat, "")`: every non-overlapping occurrence of `pat`,
      scanning left to right, is removed. */
  function RemoveAll(s: string, pat: string): (r: string)
    requires pat != []
    ensures |r| <= |s|
    ensures multiset(r) <= multiset(s)
    decreases |s|
  {
    if |s| < |pat| then s
    else if s[..|pat|] == pat then
      assert s == s[..|pat|] + s[|pat|..];
      RemoveAll(s[|pat|..], pat)
    else
      assert s == [s[0]] + s[1..];
      [s[0]] + RemoveAll(s[1..], pat)
  }

  /** Removing a pattern that does not occur changes nothing. */
  lemma {:induction false} RemoveAbsent(s: string, pat: string)
    requires pat != [] && !Contains(s, pat)
    ensures RemoveAll(s, pat) == s
    decreases |s|
  {
    if |pat| <= |s| {
      RemoveAbsent(s[1..], pat);
      assert [s[0]] + s[1..] == s;
    }
  }

  /** The first character of `pat` does not reappear later in `pat`, so no two
      occurrences of `pat` can overlap. */
  predicate NoSelfOverlap(pat: string) {
    pat != [] && pat[0] !in pat[1..]
  }

  /** A name followed by one occurrence of a non-self-overlapping pattern loses
      exactly that occurrence, provided the name has none of its own. */
  lemma {:induction false} RemoveTrailing(s: string, pat: string)
    requires NoSelfOverlap(pat) && !Contains(s, pat)
    ensures RemoveAll(s + pat, pat) == s
    decreases |s|
  {
    var t := s + pat;
    if s == [] {
      assert t == pat;
      assert t[|pat|..] == [];
    } else {
      if |pat| <= |s| {
        assert t[..|pat|] == s[..|pat|];
      } else {
        assert pat[1..][|s| - 1] == pat[|s|];
        assert t[..|pat|][|s|] == pat[0] != pat[|s|];
      }
      assert t[..|pat|] != pat;
      assert |s| <= |pat| || !Contains(s[1..], pat);
      if |pat| <= |s| {
        assert !Contains(s[1..], pat);
      } else {
        assert |s[1..]| < |pat|;
      }
      RemoveTrailing(s[1..], pat);
      assert t[1..] == s[1..] + pat;
      assert [s[0]] + s[1..] == s;
    }
  }

  /** `s` ends with `suffix` (Python's `str.endswith`). */
  predicate EndsWith(s: string, suffix: string) {
    |suffix| <= |s| && s[|s| - |suffix|..] == suffix
  }

  /** The elements of `s` are pairwise distinct. */
  predicate Distinct<T(==)>(s: seq<T>) {
    forall i, j :: 0 <= i < j < |s| ==> s[i] != s[j]
  }

  /** Position `j` holds the last occurrence of its element. */
  predicate LastAt<T(==)>(s: seq<T>, j: nat)
    requires j < |s|
  {
    forall k :: j < k < |s| ==> s[k] != s[j]
  }

  /** The distinct elements of `xs` in order of first appearance (pandas'
      `unique()`, and the key order of a dict filled from `xs`). */
  function Unique(xs: seq<string>): (r: seq<string>)
    ensures Distinct(r)
    ensures forall s :: s in r <==> s in xs
    ensures forall i, j :: 0 <= i < j < |r| ==>
      exists a :: 0 <= a < |xs| && xs[a] == r[i] && r[j] !in xs[..a + 1]
  {
    if xs == [] then []
    else
      var n := |xs| - 1;
      var front := xs[..n];
      var u := Unique(front);
      assert xs == front + [xs[n]];
      if xs[n] in u then
        forall i, j | 0 <= i < j < |u|
          ensures exists a :: 0 <= a < |xs| && xs[a] == u[i] && u[j] !in xs[..a + 1]
        {
          var a :| 0 <= a < n && front[a] == u[i] && u[j] !in front[..a + 1];
          assert xs[..a + 1] == front[..a + 1];
        }
        u
      else
        var r := u + [xs[n]];
        forall i, j | 0 <= i < j < |r|
          ensures exists a :: 0 <= a < |xs| && xs[a] == r[i] && r[j] !in xs[..a + 1]
        {
          if j == |u| {
            assert r[i] in front;
            var a :| 0 <= a < n && front[a] == r[i];
            assert xs[..a + 1] == front[..a + 1];
            assert r[j] !in front;
          } else {
            var a :| 0 <= a < n && front[a] == r[i] && r[j] !in front[..a + 1];
            assert xs[..a + 1] == front[..a + 1];
          }
        }
        r
  }

  /** Appending an element extends the first-appearance list by it exactly
      when it is new. */
  lemma UniqueSnoc(xs: seq<string>, x: string)
    ensures x in xs ==> Unique(xs + [x]) == Unique(xs)
    ensures x !in xs ==> Unique(xs + [x]) == Unique(xs) + [x]
  {
    assert (xs + [x])[..|xs|] == xs;
  }

  /** A prefix one longer is the shorter prefix plus the next element. */
  lemma PrefixSnoc<T>(xs: seq<T>, i: nat)
    requires i < |xs|
    ensures xs[..i + 1] == xs[..i] + [xs[i]]
  {
  }
}
