/** The evidence aggregator: the per-sample classification tables (already
    tagged with `universal_id` and `junction_chain`) are concatenated, one
    metadata row is built per distinct junction chain, and a sample-by-isoform
    matrix is filled with expression values or 0/1 presence flags. */
module GeneralizeIsoforms {
  import opened Wrappers
  import opened Text
  import opened Order
  import opened Paths

  /** The columns of a classification row that the aggregator reads.
      `None` is a missing value. */
  datatype IsoformRecord = IsoformRecord(
    junctionChain: Option<string>,
    universalId: Option<string>,
    category: string,
    associatedGene: string,
    associatedTranscript: string,
    exons: int,
    length: int)

  /** The two expression columns the aggregator keeps. */
  datatype ExprRecord = ExprRecord(universalId: Option<string>, tmm: real)

  /** One input pickle: its path, its classification table and, when the
      pickle has an "expression" entry, its expression table. */
  datatype Pickle = Pickle(path: string, classification: seq<IsoformRecord>, expression: Option<seq<ExprRecord>>)

  /** A row of the concatenated table: the classification row plus its
      `sample` column. */
  datatype CombinedRow = CombinedRow(record: IsoformRecord, sample: string)

  /** A row of `isoform_info`, with the columns as renamed on output. */
  datatype InfoRow = InfoRow(
    uniqueJc: string,
    universalId: Option<string>,
    category: string,
    associatedGene: string,
    associatedTranscript: string,
    exonsN: int,
    averageLength: real)

  /** A matrix column: the sample name and one value per matrix row. */
  datatype Column = Column(sample: string, values: seq<real>)

  /** The isoform matrix after `reset_index`: the `universal_id` column, then
      one column per sample. */
  datatype Matrix = Matrix(ids: seq<Option<string>>, columns: seq<Column>)

  datatype GeneralizeError =
    | NoPickles                 // `pd.concat` of an empty list
    | DuplicateIds(sample: string) // `reindex` on an index with repeated labels

  datatype Generalized = Generalized(info: seq<InfoRow>, matrix: Matrix)

  // ---------------------------------------------------------------------
  // Sample names and the collection loop
  // ---------------------------------------------------------------------

  /** `os.path.basename(pkl).replace(".pkl", "")` */
  function SampleName(path: string): (r: string)
    ensures |r| <= |Basename(path)|
  {
    RemoveAll(Basename(path), ".pkl")
  }

  lemma BasenameOfFile(dir: string, file: string)
    requires '/' !in file
    ensures Basename(dir + "/" + file) == file
  {
    var p := dir + "/" + file;
    assert p[|dir|] == '/';
    var i := LastIndexOf(p, '/');
    assert i.Some?;
    assert p[|dir| + 1..] == file;
  }

  /** Removing a pattern from the name of `<dir>/<name><pat>` gives back
      `name`, when `pat` cannot overlap itself and `name` does not hold it. */
  lemma RemoveFromBasename(dir: string, name: string, pat: string)
    requires NoSelfOverlap(pat) && '/' !in name && '/' !in pat && !Contains(name, pat)
    ensures RemoveAll(Basename(dir + "/" + (name + pat)), pat) == name
  {
    BasenameOfFile(dir, name + pat);
    RemoveTrailing(name, pat);
  }

  /** A pickle written as `<dir>/<name>.pkl` is read back as sample `name`,
      provided the name has no '/' and no ".pkl" of its own. */
  lemma SampleNameOfFile(dir: string, name: string)
    requires '/' !in name && !Contains(name, ".pkl")
    ensures SampleName(dir + "/" + name + ".pkl") == name
  {
    assert ".pkl"[1..] == "pkl";
    assert dir + "/" + name + ".pkl" == dir + "/" + (name + ".pkl");
    RemoveFromBasename(dir, name, ".pkl");
  }

  /** The rows one pickle adds to the concatenation, labelled `name`. */
  function Labelled(p: Pickle, name: string): (r: seq<CombinedRow>)
    ensures |r| == |p.classification|
    ensures forall j :: 0 <= j < |r| ==> r[j] == CombinedRow(p.classification[j], name)
  {
    seq(|p.classification|, j requires 0 <= j < |p.classification| => CombinedRow(p.classification[j], name))
  }

  /** The labelled rows of every pickle, pickle after pickle, pickle `i`
      labelled `names[i]`. */
  function CombinedFrom(pickles: seq<Pickle>, names: seq<string>): seq<CombinedRow>
    requires |names| == |pickles|
  {
    if pickles == [] then []
    else
      var n := |pickles| - 1;
      CombinedFrom(pickles[..n], names[..n]) + Labelled(pickles[n], names[n])
  }

  /** `pd.concat(all_classifications, ignore_index=True)`: each pickle's rows
      labelled with its sample name. */
  function CombinedOf(pickles: seq<Pickle>): (r: seq<CombinedRow>)
    ensures forall x :: x in r <==> exists i :: 0 <= i < |pickles| && x in Labelled(pickles[i], SampleName(pickles[i].path))
  {
    var names := Names(pickles);
    assert forall x :: x in CombinedFrom(pickles, names) <==>
        exists i :: 0 <= i < |pickles| && x in Labelled(pickles[i], names[i]) by {
      forall x
        ensures x in CombinedFrom(pickles, names) <==> exists i :: 0 <= i < |pickles| && x in Labelled(pickles[i], names[i])
      {
        CombinedMembers(pickles, names, x);
      }
    }
    CombinedFrom(pickles, names)
  }

  /** A row is in the concatenation exactly when it is one of the labelled
      rows of some pickle. */
  lemma {:induction false} CombinedMembers(pickles: seq<Pickle>, names: seq<string>, x: CombinedRow)
    requires |names| == |pickles|
    ensures x in CombinedFrom(pickles, names) <==> exists i :: 0 <= i < |pickles| && x in Labelled(pickles[i], names[i])
  {
    if pickles != [] {
      var n := |pickles| - 1;
      var front, frontNames := pickles[..n], names[..n];
      assert CombinedFrom(pickles, names) == CombinedFrom(front, frontNames) + Labelled(pickles[n], names[n]);
      CombinedMembers(front, frontNames, x);
      assert forall i :: 0 <= i < n ==> front[i] == pickles[i] && frontNames[i] == names[i];
    }
  }

  /** The sample name of every pickle, in order. */
  function Names(pickles: seq<Pickle>): (r: seq<string>)
    ensures |r| == |pickles| && forall i :: 0 <= i < |pickles| ==> r[i] == SampleName(pickles[i].path)
  {
    seq(|pickles|, i requires 0 <= i < |pickles| => SampleName(pickles[i].path))
  }

  /** Pickle `i`, named `names[i]`, supplies an expression table for `s`. */
  predicate HasExpression(pickles: seq<Pickle>, names: seq<string>, i: nat, s: string)
    requires i < |pickles| == |names|
  {
    names[i] == s && pickles[i].expression.Some?
  }

  /** Among the first `n` pickles, pickle `i` is the last to supply an
      expression table for `s`. */
  predicate LastExpression(pickles: seq<Pickle>, names: seq<string>, n: nat, i: nat, s: string)
    requires i < n <= |pickles| == |names|
  {
    HasExpression(pickles, names, i, s) && forall k :: i < k < n ==> !HasExpression(pickles, names, k, s)
  }

  /** `all_expr` after the first `n` pickles: the samples with an expression
      table, each holding the table of the last pickle that supplied one. */
  ghost predicate ExprUpTo(pickles: seq<Pickle>, names: seq<string>, n: nat, entries: map<string, seq<ExprRecord>>)
    requires n <= |pickles| == |names|
  {
    && (forall s :: s in entries <==> exists i :: 0 <= i < n && HasExpression(pickles, names, i, s))
    && (forall s :: s in entries ==>
          exists i :: 0 <= i < n && LastExpression(pickles, names, n, i, s) && entries[s] == pickles[i].expression.value)
  }

  lemma ExprUpToStep(pickles: seq<Pickle>, names: seq<string>, n: nat, entries: map<string, seq<ExprRecord>>)
    requires n < |pickles| == |names| && ExprUpTo(pickles, names, n, entries)
    ensures pickles[n].expression.Some? ==>
      ExprUpTo(pickles, names, n + 1, entries[names[n] := pickles[n].expression.value])
    ensures pickles[n].expression.None? ==> ExprUpTo(pickles, names, n + 1, entries)
  {
    var name := names[n];
    if pickles[n].expression.Some? {
      var e := entries[name := pickles[n].expression.value];
      forall s | s in e
        ensures exists i :: 0 <= i < n + 1 && LastExpression(pickles, names, n + 1, i, s) && e[s] == pickles[i].expression.value
      {
        if s == name {
          assert LastExpression(pickles, names, n + 1, n, s);
        } else {
          var i :| 0 <= i < n && LastExpression(pickles, names, n, i, s) && entries[s] == pickles[i].expression.value;
          assert !HasExpression(pickles, names, n, s);
          assert LastExpression(pickles, names, n + 1, i, s);
        }
      }
      forall s ensures s in e <==> exists i :: 0 <= i < n + 1 && HasExpression(pickles, names, i, s) {
        if s == name { assert HasExpression(pickles, names, n, s); }
      }
    } else {
      forall s | s in entries
        ensures exists i :: 0 <= i < n + 1 && LastExpression(pickles, names, n + 1, i, s) && entries[s] == pickles[i].expression.value
      {
        var i :| 0 <= i < n && LastExpression(pickles, names, n, i, s) && entries[s] == pickles[i].expression.value;
        assert !HasExpression(pickles, names, n, s);
        assert LastExpression(pickles, names, n + 1, i, s);
      }
    }
  }

  /** `all_expr` as a fold over the pickles: a sample name is a key
      exactly when some pickle of that name has an expression table. */
  function ExprTables(pickles: seq<Pickle>): (r: map<string, seq<ExprRecord>>)
    ensures forall s :: s in r <==>
      exists i :: 0 <= i < |pickles| && pickles[i].expression.Some? && SampleName(pickles[i].path) == s
  {
    if pickles == [] then map[]
    else
      var n := |pickles| - 1;
      var front := pickles[..n];
      var m := ExprTables(front);
      var p := pickles[n];
      assert pickles == front + [p];
      ExprKeysStep(front, p, m);
      if p.expression.Some? then m[SampleName(p.path) := p.expression.value] else m
  }

  /** The keys of `all_expr` after one more pickle. */
  lemma ExprKeysStep(front: seq<Pickle>, p: Pickle, m: map<string, seq<ExprRecord>>)
    requires forall s :: s in m <==>
      exists i :: 0 <= i < |front| && front[i].expression.Some? && SampleName(front[i].path) == s
    ensures var r := if p.expression.Some? then m[SampleName(p.path) := p.expression.value] else m;
      var all := front + [p];
      forall s :: s in r <==> exists i :: 0 <= i < |all| && all[i].expression.Some? && SampleName(all[i].path) == s
  {
    var r := if p.expression.Some? then m[SampleName(p.path) := p.expression.value] else m;
    var all := front + [p];
    var n := |front|;
    forall s | s in r
      ensures exists i :: 0 <= i < |all| && all[i].expression.Some? && SampleName(all[i].path) == s
    {
      if s !in m {
        assert all[n] == p;
      } else {
        var i :| 0 <= i < n && front[i].expression.Some? && SampleName(front[i].path) == s;
        assert all[i] == front[i];
      }
    }
    forall s, i | 0 <= i < |all| && all[i].expression.Some? && SampleName(all[i].path) == s
      ensures s in r
    {
      if i < n {
        assert all[i] == front[i];
      }
    }
  }

  /** One more pickle extends both folds by that pickle. */
  lemma CollectStep(pickles: seq<Pickle>, names: seq<string>, i: nat)
    requires i < |pickles| == |names|
    ensures CombinedFrom(pickles[..i + 1], names[..i + 1]) == CombinedFrom(pickles[..i], names[..i]) + Labelled(pickles[i], names[i])
    ensures pickles[i].expression.Some? ==>
      ExprTables(pickles[..i + 1]) == ExprTables(pickles[..i])[SampleName(pickles[i].path) := pickles[i].expression.value]
    ensures pickles[i].expression.None? ==> ExprTables(pickles[..i + 1]) == ExprTables(pickles[..i])
  {
    assert pickles[..i + 1][..i] == pickles[..i];
    assert names[..i + 1][..i] == names[..i];
    assert pickles[..i + 1] == pickles[..i] + [pickles[i]];
    ExprTablesSnoc(pickles[..i], pickles[i]);
  }

  /** `expr_dict` after one more pickle. */
  lemma ExprTablesSnoc(front: seq<Pickle>, p: Pickle)
    ensures ExprTables(front + [p]) ==
      if p.expression.Some? then ExprTables(front)[SampleName(p.path) := p.expression.value] else ExprTables(front)
  {
    assert (front + [p])[..|front|] == front;
  }

  /** `all_expr` after one more pickle, with the pickle's sample name
      taken from `names`. */
  lemma ExprTablesStep(pickles: seq<Pickle>, names: seq<string>, n: nat)
    requires 0 < n <= |pickles| == |names| && names[n - 1] == SampleName(pickles[n - 1].path)
    ensures ExprTables(pickles[..n]) ==
      if pickles[n - 1].expression.Some? then ExprTables(pickles[..n - 1])[names[n - 1] := pickles[n - 1].expression.value]
      else ExprTables(pickles[..n - 1])
  {
    CollectStep(pickles, names, n - 1);
  }

  /** `ExprUpTo` after one more pickle, for any table updated as the loop
      updates it. */
  lemma ExprUpToNext(pickles: seq<Pickle>, names: seq<string>, n: nat, before: map<string, seq<ExprRecord>>,
                     after: map<string, seq<ExprRecord>>)
    requires 0 < n <= |pickles| == |names| && ExprUpTo(pickles, names, n - 1, before)
    requires after == if pickles[n - 1].expression.Some? then before[names[n - 1] := pickles[n - 1].expression.value] else before
    ensures ExprUpTo(pickles, names, n, after)
  {
    ExprUpToStep(pickles, names, n - 1, before);
  }

  /** The tables of the first `n` pickles are those of their last
      occurrences. */
  lemma {:induction false} ExprTablesUpTo(pickles: seq<Pickle>, names: seq<string>, n: nat)
    requires n <= |pickles| && names == Names(pickles)
    ensures ExprUpTo(pickles, names, n, ExprTables(pickles[..n]))
  {
    if n > 0 {
      ExprTablesUpTo(pickles, names, n - 1);
      ExprTablesStep(pickles, names, n);
      ExprUpToNext(pickles, names, n, ExprTables(pickles[..n - 1]), ExprTables(pickles[..n]));
    }
  }

  /** The collection loop: appends each pickle's labelled classification
      rows, and records its expression table under its sample name, a later
      pickle of the same name replacing an earlier one. */
  method Collect(pickles: seq<Pickle>) returns (combined: seq<CombinedRow>, allExpr: map<string, seq<ExprRecord>>)
    ensures combined == CombinedOf(pickles)
    ensures allExpr == ExprTables(pickles)
    ensures ExprUpTo(pickles, Names(pickles), |pickles|, allExpr)
  {
    ghost var names := Names(pickles);
    combined := [];
    allExpr := map[];
    for i := 0 to |pickles|
      invariant combined == CombinedFrom(pickles[..i], names[..i])
      invariant allExpr == ExprTables(pickles[..i])
    {
      CollectStep(pickles, names, i);
      var p := pickles[i];
      var name := SampleName(p.path);
      combined := combined + Labelled(p, name);
      if p.expression.Some? {
        allExpr := allExpr[name := p.expression.value];
      }
    }
    assert pickles[..|pickles|] == pickles && names[..|names|] == names;
    ExprTablesUpTo(pickles, names, |pickles|);
  }

  // ---------------------------------------------------------------------
  // isoform_info
  // ---------------------------------------------------------------------

  /** The non-missing `junction_chain` values, in row order. */
  function ChainValues(rows: seq<CombinedRow>): (r: seq<string>)
    ensures forall c :: c in r <==> exists i :: 0 <= i < |rows| && rows[i].record.junctionChain == Some(c)
  {
    if rows == [] then []
    else
      var t := ChainValues(rows[1..]);
      assert forall i :: 1 <= i < |rows| ==> rows[1..][i - 1] == rows[i];
      match rows[0].record.junctionChain
      case Some(c) => [c] + t
      case None => t
  }

  /** The rows of group `jc`, in row order. */
  function GroupOf(rows: seq<CombinedRow>, jc: string): (g: seq<CombinedRow>)
    ensures forall x :: x in g <==> x in rows && x.record.junctionChain == Some(jc)
    ensures |g| <= |rows|
  {
    if rows == [] then []
    else if rows[0].record.junctionChain == Some(jc) then [rows[0]] + GroupOf(rows[1..], jc)
    else GroupOf(rows[1..], jc)
  }

  /** The `"first"` id of group `jc`, read off the table itself: the id of
      the first row of the group that has one, every earlier row of the
      group having none. */
  lemma {:induction false} GroupFirstId(rows: seq<CombinedRow>, jc: string)
    ensures var f := FirstId(GroupOf(rows, jc));
      f.Some? ==> exists j :: (0 <= j < |rows| && rows[j].record.junctionChain == Some(jc) && rows[j].record.universalId == f &&
        forall j' :: 0 <= j' < j && rows[j'].record.junctionChain == Some(jc) ==> rows[j'].record.universalId.None?)
  {
    if rows != [] {
      var g := GroupOf(rows, jc);
      var t := GroupOf(rows[1..], jc);
      var f := FirstId(g);
      GroupFirstId(rows[1..], jc);
      if rows[0].record.junctionChain == Some(jc) && rows[0].record.universalId.Some? {
        assert g[0] == rows[0];
        assert f == rows[0].record.universalId;
      } else if f.Some? {
        if rows[0].record.junctionChain == Some(jc) {
          assert g == [rows[0]] + t && g[1..] == t;
        } else {
          assert g == t;
        }
        assert FirstId(t) == f;
        var j :| 0 <= j < |rows[1..]| && rows[1..][j].record.junctionChain == Some(jc) && rows[1..][j].record.universalId == f &&
          forall j' :: 0 <= j' < j && rows[1..][j'].record.junctionChain == Some(jc) ==> rows[1..][j'].record.universalId.None?;
        forall j' | 0 <= j' < j + 1 && rows[j'].record.junctionChain == Some(jc)
          ensures rows[j'].record.universalId.None?
        {
          if j' > 0 {
            assert rows[j'] == rows[1..][j' - 1];
          }
        }
        assert rows[j + 1] == rows[1..][j];
      }
    }
  }

  /** Row `i` is the first row of group `jc`. */
  predicate FirstOfGroup(rows: seq<CombinedRow>, jc: string, i: nat) {
    i < |rows| && rows[i].record.junctionChain == Some(jc) &&
    forall j :: 0 <= j < i ==> rows[j].record.junctionChain != Some(jc)
  }

  /** A group's first row is the first row of the table with that chain. */
  lemma {:induction false} GroupHead(rows: seq<CombinedRow>, jc: string, i: nat)
    requires FirstOfGroup(rows, jc, i)
    ensures GroupOf(rows, jc) != [] && GroupOf(rows, jc)[0] == rows[i]
  {
    if i > 0 {
      assert rows[0].record.junctionChain != Some(jc);
      GroupHead(rows[1..], jc, i - 1);
    }
  }

  /** The `"first"` aggregation on `universal_id`: the first non-missing
      value of the group, missing when the group has none. */
  function FirstId(g: seq<CombinedRow>): (r: Option<string>)
    ensures r.None? <==> forall i :: 0 <= i < |g| ==> g[i].record.universalId.None?
    ensures r.Some? ==> exists i :: 0 <= i < |g| && g[i].record.universalId == r && (forall j :: 0 <= j < i ==> g[j].record.universalId.None?)
  {
    if g == [] then None
    else if g[0].record.universalId.Some? then g[0].record.universalId
    else
      var r := FirstId(g[1..]);
      assert forall i :: 1 <= i < |g| ==> g[1..][i - 1] == g[i];
      r
  }

  function LengthSum(g: seq<CombinedRow>): int {
    if g == [] then 0 else g[0].record.length + LengthSum(g[1..])
  }

  /** The `"mean"` aggregation on `length`: times the group size it gives
      the group's total length, and a group whose rows agree on the length
      averages to that length. */
  function MeanLength(g: seq<CombinedRow>): (r: real)
    requires g != []
    ensures |g| as real * r == LengthSum(g) as real
    ensures (forall x :: x in g ==> x.record.length == g[0].record.length) ==> r == g[0].record.length as real
  {
    var len := g[0].record.length;
    assert (forall x :: x in g ==> x.record.length == len) ==> LengthSum(g) == |g| * len by {
      if forall x :: x in g ==> x.record.length == len {
        LengthSumBounds(g, len, len);
      }
    }
    MeanOfSum(LengthSum(g), |g|, len);
    LengthSum(g) as real / |g| as real
  }

  lemma {:induction false} LengthSumBounds(g: seq<CombinedRow>, lo: int, hi: int)
    requires forall x :: x in g ==> lo <= x.record.length <= hi
    ensures |g| * lo <= LengthSum(g) <= |g| * hi
  {
    if g != [] {
      var t := g[1..];
      assert forall x :: x in t ==> x in g;
      LengthSumBounds(t, lo, hi);
      Distribute(|t|, lo);
      Distribute(|t|, hi);
    }
  }

  lemma Distribute(m: int, x: int)
    ensures (m + 1) * x == m * x + x
  {
  }

  /** A total over `n` items divided by `n`, times `n`, is the total; a
      total of `n` equal values divided by `n` is that value. */
  lemma MeanOfSum(s: int, n: nat, v: int)
    requires n > 0
    ensures n as real * (s as real / n as real) == s as real
    ensures s == n * v ==> s as real / n as real == v as real
  {
    DivTimes(s as real, n as real);
    if s == n * v {
      CastProduct(n, v);
      TimesDiv(n as real, v as real);
    }
  }

  lemma DivTimes(s: real, n: real)
    requires n > 0.0
    ensures n * (s / n) == s
  {
  }

  lemma TimesDiv(n: real, v: real)
    requires n > 0.0
    ensures (n * v) / n == v
  {
  }

  lemma CastProduct(a: int, b: int)
    ensures (a * b) as real == a as real * b as real
  {
  }

  lemma QuotientBounds(s: real, n: real, lo: real, hi: real)
    requires n > 0.0 && n * lo <= s <= n * hi
    ensures lo <= s / n <= hi
  {
    assert (s / n) * n == s;
  }

  /** An average `r` of `n` values summing to `sum` lies within the bounds of
      the values. */
  lemma AverageBounds(n: nat, sum: int, lo: int, hi: int, r: real)
    requires n > 0 && n * lo <= sum <= n * hi && n as real * r == sum as real
    ensures lo as real <= r <= hi as real
  {
    CastProduct(n, lo);
    CastProduct(n, hi);
    assert r == sum as real / n as real;
    QuotientBounds(sum as real, n as real, lo as real, hi as real);
  }

  /** The average length lies between any bounds of the group's lengths; in
      particular a group whose rows agree on the length averages to it. */
  lemma MeanLengthBounds(g: seq<CombinedRow>, lo: int, hi: int)
    requires g != []
    requires forall x :: x in g ==> lo <= x.record.length <= hi
    ensures lo as real <= MeanLength(g) <= hi as real
  {
    LengthSumBounds(g, lo, hi);
    AverageBounds(|g|, LengthSum(g), lo, hi, MeanLength(g));
  }

  /** One `isoform_info` row from a non-empty group: keyed by the chain,
      its universal id the first one present in the group (missing only when
      every row lacks one), the other `"first"` fields from the group's
      first row. */
  function InfoOf(g: seq<CombinedRow>, jc: string): (r: InfoRow)
    requires g != []
    ensures r.uniqueJc == jc
    ensures r.universalId.None? <==> forall i :: 0 <= i < |g| ==> g[i].record.universalId.None?
    ensures r.universalId.Some? ==> exists i :: (0 <= i < |g| && g[i].record.universalId == r.universalId &&
      forall j :: 0 <= j < i ==> g[j].record.universalId.None?)
    ensures r.category == g[0].record.category && r.associatedTranscript == g[0].record.associatedTranscript
  {
    var h := g[0].record;
    InfoRow(jc, FirstId(g), h.category, h.associatedGene, h.associatedTranscript, h.exons, MeanLength(g))
  }

  function InfoRows(rows: seq<CombinedRow>, keys: seq<string>): (info: seq<InfoRow>)
    requires forall c :: c in keys ==> c in ChainValues(rows)
    ensures |info| == |keys|
    ensures forall k :: 0 <= k < |keys| ==> info[k].uniqueJc == keys[k]
  {
    if keys == [] then []
    else
      var c := keys[0];
      assert c in ChainValues(rows);
      var i :| 0 <= i < |rows| && rows[i].record.junctionChain == Some(c);
      assert rows[i] in GroupOf(rows, c);
      [InfoOf(GroupOf(rows, c), c)] + InfoRows(rows, keys[1..])
  }

  /** `combined.groupby("junction_chain").agg(...).reset_index().rename(...)`:
      one row per distinct non-missing chain, in ascending chain order. */
  function IsoformInfo(rows: seq<CombinedRow>): (info: seq<InfoRow>)
    ensures forall k, l :: 0 <= k < l < |info| ==> Less(info[k].uniqueJc, info[l].uniqueJc)
    ensures forall c :: (exists k :: 0 <= k < |info| && info[k].uniqueJc == c) <==>
      (exists i :: 0 <= i < |rows| && rows[i].record.junctionChain == Some(c))
  {
    var keys := SortedKeys(ChainValues(rows));
    var info := InfoRows(rows, keys);
    assert forall c :: (exists k :: 0 <= k < |info| && info[k].uniqueJc == c) <==> c in keys;
    info
  }

  /** Row `k` of `isoform_info` is group `info[k].uniqueJc` aggregated. */
  lemma {:induction false} InfoRowsAt(rows: seq<CombinedRow>, keys: seq<string>, k: nat)
    requires forall c :: c in keys ==> c in ChainValues(rows)
    requires k < |keys|
    ensures GroupOf(rows, keys[k]) != []
    ensures InfoRows(rows, keys)[k] == InfoOf(GroupOf(rows, keys[k]), keys[k])
  {
    var tail := keys[1..];
    InfoRowsCons(rows, keys);
    if k > 0 {
      assert tail[k - 1] == keys[k];
      InfoRowsAt(rows, tail, k - 1);
    }
  }

  /** The first row of `isoform_info` and the rest. */
  lemma InfoRowsCons(rows: seq<CombinedRow>, keys: seq<string>)
    requires forall c :: c in keys ==> c in ChainValues(rows)
    requires keys != []
    ensures GroupOf(rows, keys[0]) != []
    ensures InfoRows(rows, keys) == [InfoOf(GroupOf(rows, keys[0]), keys[0])] + InfoRows(rows, keys[1..])
  {
    var c := keys[0];
    assert c in ChainValues(rows);
    var i :| 0 <= i < |rows| && rows[i].record.junctionChain == Some(c);
    assert rows[i] in GroupOf(rows, c);
  }

  /** Each `isoform_info` row: the fields aggregated with `"first"` come from
      the group's first row in concatenation order (the universal id from
      its first row that has one), and the average length lies between the
      group's shortest and longest length. */
  lemma InfoRowMeaning(rows: seq<CombinedRow>, k: nat, i: nat, lo: int, hi: int)
    requires k < |IsoformInfo(rows)|
    requires FirstOfGroup(rows, IsoformInfo(rows)[k].uniqueJc, i)
    requires forall j :: 0 <= j < |rows| && rows[j].record.junctionChain == Some(IsoformInfo(rows)[k].uniqueJc) ==>
      lo <= rows[j].record.length <= hi
    ensures var r := IsoformInfo(rows)[k]; var x := rows[i].record;
      && r.category == x.category
      && r.associatedGene == x.associatedGene
      && r.associatedTranscript == x.associatedTranscript
      && r.exonsN == x.exons
      && lo as real <= r.averageLength <= hi as real
    ensures var r := IsoformInfo(rows)[k];
      (r.universalId.None? <==> forall j :: 0 <= j < |rows| && rows[j].record.junctionChain == Some(r.uniqueJc) ==> rows[j].record.universalId.None?)
    ensures var r := IsoformInfo(rows)[k];
      r.universalId.Some? ==> exists j :: (0 <= j < |rows| && rows[j].record.junctionChain == Some(r.uniqueJc) && rows[j].record.universalId == r.universalId &&
        forall j' :: 0 <= j' < j && rows[j'].record.junctionChain == Some(r.uniqueJc) ==> rows[j'].record.universalId.None?)
  {
    var keys := SortedKeys(ChainValues(rows));
    var jc := keys[k];
    InfoRowsAt(rows, keys, k);
    var g := GroupOf(rows, jc);
    GroupHead(rows, jc, i);
    forall x | x in g ensures lo <= x.record.length <= hi {
      var j :| 0 <= j < |rows| && rows[j] == x;
    }
    MeanLengthBounds(g, lo, hi);
    GroupFirstId(rows, jc);
    forall j | 0 <= j < |rows| && rows[j].record.junctionChain == Some(jc) ensures rows[j] in g { }
    if FirstId(g).None? {
      forall j | 0 <= j < |rows| && rows[j].record.junctionChain == Some(jc)
        ensures rows[j].record.universalId.None?
      {
        var m :| 0 <= m < |g| && g[m] == rows[j];
      }
    }
  }

  // ---------------------------------------------------------------------
  // The matrix
  // ---------------------------------------------------------------------

  function Samples(rows: seq<CombinedRow>): (r: seq<string>)
    ensures |r| == |rows| && forall i :: 0 <= i < |rows| ==> r[i] == rows[i].sample
  {
    seq(|rows|, i requires 0 <= i < |rows| => rows[i].sample)
  }

  function InfoIds(info: seq<InfoRow>): (r: seq<Option<string>>)
    ensures |r| == |info| && forall k :: 0 <= k < |info| ==> r[k] == info[k].universalId
  {
    seq(|info|, k requires 0 <= k < |info| => info[k].universalId)
  }

  function ExprIds(expr: seq<ExprRecord>): (r: seq<Option<string>>)
    ensures |r| == |expr| && forall j :: 0 <= j < |expr| ==> r[j] == expr[j].universalId
  {
    seq(|expr|, j requires 0 <= j < |expr| => expr[j].universalId)
  }

  /** `series.reindex(ids)` succeeds: the index already is `ids`, or it
      holds no label twice. */
  predicate Reindexable(expr: seq<ExprRecord>, ids: seq<Option<string>>) {
    ExprIds(expr) == ids || Distinct(ExprIds(expr))
  }

  /** The TMM value of the first expression row labelled `id`, else 0. */
  function TmmOf(expr: seq<ExprRecord>, id: Option<string>): (v: real)
    ensures (exists j :: 0 <= j < |expr| && expr[j].universalId == id && v == expr[j].tmm) ||
      ((forall j :: 0 <= j < |expr| ==> expr[j].universalId != id) && v == 0.0)
  {
    if expr == [] then 0.0
    else if expr[0].universalId == id then expr[0].tmm
    else
      var v := TmmOf(expr[1..], id);
      assert forall j :: 1 <= j < |expr| ==> expr[1..][j - 1] == expr[j];
      v
  }

  /** `all_expr[sample].reindex(isoform_ids).fillna(0)`: each id's TMM value
      when the expression table has a row for it, otherwise 0. */
  function ExprColumn(expr: seq<ExprRecord>, ids: seq<Option<string>>): (col: seq<real>)
    requires Reindexable(expr, ids)
    ensures |col| == |ids|
    ensures forall k :: 0 <= k < |ids| ==>
      (exists j :: 0 <= j < |expr| && expr[j].universalId == ids[k] && col[k] == expr[j].tmm) ||
      ((forall j :: 0 <= j < |expr| ==> expr[j].universalId != ids[k]) && col[k] == 0.0)
  {
    if ExprIds(expr) == ids then
      var col := seq(|ids|, k requires 0 <= k < |ids| => expr[k].tmm);
      assert forall k :: 0 <= k < |ids| ==> expr[k].universalId == ids[k];
      col
    else
      seq(|ids|, k requires 0 <= k < |ids| => TmmOf(expr, ids[k]))
  }

  /** With distinct labels, the cell of an id is the TMM value of the one
      expression row carrying it. */
  lemma ExprColumnDistinct(expr: seq<ExprRecord>, ids: seq<Option<string>>, k: nat, j: nat)
    requires Distinct(ExprIds(expr))
    requires k < |ids| && j < |expr| && expr[j].universalId == ids[k]
    ensures ExprColumn(expr, ids)[k] == expr[j].tmm
  {
    var col := ExprColumn(expr, ids);
    var e := ExprIds(expr);
    assert e[j] == ids[k];
    var m :| 0 <= m < |expr| && expr[m].universalId == ids[k] && col[k] == expr[m].tmm;
    assert e[m] == e[j];
  }

  /** The universal ids of the sample's classification rows. */
  function PresentIds(rows: seq<CombinedRow>, s: string): set<Option<string>> {
    set i | 0 <= i < |rows| && rows[i].sample == s :: rows[i].record.universalId
  }

  /** `[1 if uid in present_ids else 0 for uid in isoform_ids]` */
  function PresenceColumn(rows: seq<CombinedRow>, s: string, ids: seq<Option<string>>): (col: seq<real>)
    ensures |col| == |ids|
    ensures forall k :: 0 <= k < |ids| ==> col[k] == 0.0 || col[k] == 1.0
    ensures forall k :: 0 <= k < |ids| ==>
      (col[k] == 1.0 <==> exists i :: 0 <= i < |rows| && rows[i].sample == s && rows[i].record.universalId == ids[k])
  {
    var present := PresentIds(rows, s);
    seq(|ids|, k requires 0 <= k < |ids| => if ids[k] in present then 1.0 else 0.0)
  }

  /** The column of sample `s`: expression values when the sample supplied
      an expression table, presence flags otherwise. */
  function ColumnFor(rows: seq<CombinedRow>, allExpr: map<string, seq<ExprRecord>>, s: string, ids: seq<Option<string>>): (col: seq<real>)
    requires s in allExpr ==> Reindexable(allExpr[s], ids)
    ensures |col| == |ids|
    ensures s in allExpr ==> forall k :: 0 <= k < |ids| ==>
      (exists j :: 0 <= j < |allExpr[s]| && allExpr[s][j].universalId == ids[k] && col[k] == allExpr[s][j].tmm) ||
      ((forall j :: 0 <= j < |allExpr[s]| ==> allExpr[s][j].universalId != ids[k]) && col[k] == 0.0)
    ensures s !in allExpr ==> forall k :: 0 <= k < |ids| ==>
      (col[k] == 0.0 || col[k] == 1.0) &&
      (col[k] == 1.0 <==> exists i :: 0 <= i < |rows| && rows[i].sample == s && rows[i].record.universalId == ids[k])
  {
    if s in allExpr then ExprColumn(allExpr[s], ids) else PresenceColumn(rows, s, ids)
  }

  predicate ColumnFails(allExpr: map<string, seq<ExprRecord>>, s: string, ids: seq<Option<string>>) {
    s in allExpr && !Reindexable(allExpr[s], ids)
  }

  /** Position `i` of `samples` is where the column loop raises. */
  predicate FirstColumnFailure(samples: seq<string>, allExpr: map<string, seq<ExprRecord>>, ids: seq<Option<string>>, i: nat) {
    i < |samples| && ColumnFails(allExpr, samples[i], ids) &&
    forall j :: 0 <= j < i ==> !ColumnFails(allExpr, samples[j], ids)
  }

  /** `columns` holds one column per sample of `samples`, in order, each
      built by `ColumnFor`. */
  predicate ColumnsFor(rows: seq<CombinedRow>, allExpr: map<string, seq<ExprRecord>>, ids: seq<Option<string>>,
                       samples: seq<string>, columns: seq<Column>) {
    && |columns| == |samples|
    && forall c :: 0 <= c < |samples| ==>
         && columns[c].sample == samples[c]
         && !ColumnFails(allExpr, samples[c], ids)
         && columns[c].values == ColumnFor(rows, allExpr, samples[c], ids)
  }

  /** `m` is the matrix of the samples in order of first appearance. */
  predicate MatrixFor(rows: seq<CombinedRow>, allExpr: map<string, seq<ExprRecord>>, ids: seq<Option<string>>, m: Matrix) {
    m.ids == ids && ColumnsFor(rows, allExpr, ids, Unique(Samples(rows)), m.columns)
  }

  /** The column-by-column loop `matrix[sample] = ...` over `samples`. */
  method BuildColumns(rows: seq<CombinedRow>, allExpr: map<string, seq<ExprRecord>>, ids: seq<Option<string>>, samples: seq<string>)
    returns (r: Result<seq<Column>, GeneralizeError>)
    ensures r.Err? <==> exists i :: 0 <= i < |samples| && ColumnFails(allExpr, samples[i], ids)
    ensures r.Err? ==> exists i :: 0 <= i < |samples| && FirstColumnFailure(samples, allExpr, ids, i) && r.error == DuplicateIds(samples[i])
    ensures r.Ok? ==> ColumnsFor(rows, allExpr, ids, samples, r.value)
  {
    var columns: seq<Column> := [];
    for i := 0 to |samples|
      invariant |columns| == i
      invariant forall c :: 0 <= c < i ==> !ColumnFails(allExpr, samples[c], ids)
      invariant forall c :: 0 <= c < i ==>
        columns[c].sample == samples[c] && columns[c].values == ColumnFor(rows, allExpr, samples[c], ids)
    {
      var s := samples[i];
      if ColumnFails(allExpr, s, ids) {
        assert FirstColumnFailure(samples, allExpr, ids, i);
        return Err(DuplicateIds(s));
      }
      columns := columns + [Column(s, ColumnFor(rows, allExpr, s, ids))];
    }
    r := Ok(columns);
  }

  /** The matrix over the samples in order of first appearance; the first
      sample whose expression table cannot be reindexed stops it. */
  method BuildMatrix(rows: seq<CombinedRow>, allExpr: map<string, seq<ExprRecord>>, ids: seq<Option<string>>)
    returns (r: Result<Matrix, GeneralizeError>)
    ensures r.Err? <==> exists i :: 0 <= i < |Unique(Samples(rows))| && ColumnFails(allExpr, Unique(Samples(rows))[i], ids)
    ensures r.Err? ==>
      exists i :: 0 <= i < |Unique(Samples(rows))| && FirstColumnFailure(Unique(Samples(rows)), allExpr, ids, i) && r.error == DuplicateIds(Unique(Samples(rows))[i])
    ensures r.Ok? ==> MatrixFor(rows, allExpr, ids, r.value)
  {
    var samples := Unique(Samples(rows));
    var columns := BuildColumns(rows, allExpr, ids, samples);
    if columns.Err? {
      var i :| 0 <= i < |samples| && FirstColumnFailure(samples, allExpr, ids, i) && columns.error == DuplicateIds(samples[i]);
      assert ColumnFails(allExpr, samples[i], ids);
      return Err(columns.error);
    }
    r := Ok(Matrix(ids, columns.value));
  }

  /** The aggregation body of the script: collect, aggregate, fill. */
  method Generalize(pickles: seq<Pickle>) returns (r: Result<Generalized, GeneralizeError>)
    ensures pickles == [] ==> r == Err(NoPickles)
    ensures pickles != [] ==>
      var rows := CombinedOf(pickles);
      var ids := InfoIds(IsoformInfo(rows));
      var samples := Unique(Samples(rows));
      r.Err? <==> exists i :: 0 <= i < |samples| && ColumnFails(ExprTables(pickles), samples[i], ids)
    ensures r.Ok? ==> r.value.info == IsoformInfo(CombinedOf(pickles))
    ensures r.Ok? ==> MatrixFor(CombinedOf(pickles), ExprTables(pickles), InfoIds(r.value.info), r.value.matrix)
  {
    if pickles == [] {
      return Err(NoPickles);
    }
    var combined, allExpr := Collect(pickles);
    var info := IsoformInfo(combined);
    var matrix := BuildMatrix(combined, allExpr, InfoIds(info));
    if matrix.Err? {
      return Err(matrix.error);
    }
    r := Ok(Generalized(info, matrix.value));
  }
}
