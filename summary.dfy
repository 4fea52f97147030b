/** The counting part of the pipeline's summary report: per-sample isoform
    totals, category histograms and mono/multi-exon splits read off the
    isoform table and the sample matrix, and the per-isoform sample
    memberships fed to the UpSet plot. Reading the two TSV files and all
    plotting are not part of this model. */
module SqCompareSummary {
  import opened Wrappers
  import opened Text

  /** SQANTI3's structural category names, in report order. */
  const RawCategories: seq<string> := [
    "full-splice_match", "incomplete-splice_match",
    "novel_in_catalog", "novel_not_in_catalog",
    "genic", "antisense", "fusion", "intergenic", "genic_intron"
  ]

  /** The display label of each category, position by position. */
  const Categories: seq<string> := [
    "FSM", "ISM", "NIC", "NNC", "Genic\nGenomic",
    "Antisense", "Fusion", "Intergenic", "Genic\nIntron"
  ]

  /** The name of the matrix column the report reads the row keys from. */
  const KeyColumn := "unique_jc"

  /** `dict(zip(ks, vs))`: a later pair overwrites an earlier one with the
      same key. */
  function ZipMap(ks: seq<string>, vs: seq<string>): (m: map<string, string>)
    requires |ks| == |vs|
    ensures forall k :: k in m <==> k in ks
    ensures forall k :: k in m ==> m[k] in vs
  {
    if ks == [] then map[]
    else
      var n := |ks| - 1;
      var front := ZipMap(ks[..n], vs[..n]);
      assert forall k :: k in front ==> front[k] in vs[..n];
      assert ks == ks[..n] + [ks[n]];
      front[ks[n] := vs[n]]
  }

  /** With distinct keys, every key is paired with the value at its own
      position. */
  lemma {:induction false} ZipMapAt(ks: seq<string>, vs: seq<string>, i: nat)
    requires |ks| == |vs| && Distinct(ks) && i < |ks|
    ensures ks[i] in ZipMap(ks, vs) && ZipMap(ks, vs)[ks[i]] == vs[i]
  {
    var n := |ks| - 1;
    var front := ZipMap(ks[..n], vs[..n]);
    assert ZipMap(ks, vs) == front[ks[n] := vs[n]];
    if i < n {
      assert Distinct(ks[..n]);
      ZipMapAt(ks[..n], vs[..n], i);
      assert ks[..n][i] == ks[i] && vs[..n][i] == vs[i];
      assert ks[i] != ks[n];
    }
  }

  /** `cat_map`. */
  const CatMap := ZipMap(RawCategories, Categories)

  /** Nine names, nine labels, no name repeated, and no raw name is also a
      label. */
  lemma CategoryNames()
    ensures |RawCategories| == |Categories| == 9
    ensures Distinct(RawCategories) && Distinct(Categories)
    ensures forall i, j :: 0 <= i < |RawCategories| && 0 <= j < |Categories| ==> RawCategories[i] != Categories[j]
  {
  }

  /** `cat_map` pairs the i-th raw name with the i-th label and has no other
      keys. */
  lemma CatMapAt()
    ensures forall r :: r in CatMap <==> r in RawCategories
    ensures forall i :: 0 <= i < |RawCategories| ==> CatMap[RawCategories[i]] == Categories[i]
  {
    CategoryNames();
    forall i | 0 <= i < |RawCategories|
      ensures CatMap[RawCategories[i]] == Categories[i]
    {
      ZipMapAt(RawCategories, Categories, i);
    }
  }

  /** Zipping distinct keys with distinct values gives a map that sends
      different keys to different values. */
  lemma ZipMapInjective(ks: seq<string>, vs: seq<string>)
    requires |ks| == |vs| && Distinct(ks) && Distinct(vs)
    ensures forall a, b :: a in ZipMap(ks, vs) && b in ZipMap(ks, vs) && ZipMap(ks, vs)[a] == ZipMap(ks, vs)[b] ==> a == b
  {
    var m := ZipMap(ks, vs);
    forall a, b | a in m && b in m && m[a] == m[b]
      ensures a == b
    {
      var i :| 0 <= i < |ks| && ks[i] == a;
      var j :| 0 <= j < |ks| && ks[j] == b;
      ZipMapAt(ks, vs, i);
      ZipMapAt(ks, vs, j);
    }
  }

  /** `cat_map` sends different names to different labels, so it is a
      one-to-one correspondence between the nine names and the nine labels. */
  lemma CatMapPairs()
    ensures forall r :: r in CatMap <==> r in RawCategories
    ensures forall i :: 0 <= i < |RawCategories| ==> CatMap[RawCategories[i]] == Categories[i]
    ensures forall a, b :: a in CatMap && b in CatMap && CatMap[a] == CatMap[b] ==> a == b
  {
    CatMapAt();
    CategoryNames();
    ZipMapInjective(RawCategories, Categories);
  }

  /** A row of `isoform_info.tsv`, the columns the report counts. */
  datatype InfoRecord = InfoRecord(uniqueJc: string, category: string, exonsN: int)

  /** A row of `isoform_matrix.tsv`: its key (first column) and one value
      per sample column. */
  datatype MatrixRow = MatrixRow(key: string, values: seq<real>)

  /** The matrix as read: the first column's name, the sample columns after
      it, and the rows. */
  datatype Matrix = Matrix(keyColumn: string, samples: seq<string>, rows: seq<MatrixRow>)
  {
    /** Column names are distinct (duplicated names in a TSV header are
        renamed on reading), a key column other than the first is not
        modelled, and every row has a value for every sample. */
    predicate WellFormed() {
      && Distinct([keyColumn] + samples)
      && KeyColumn !in samples
      && forall i :: 0 <= i < |rows| ==> |rows[i].values| == |samples|
    }
  }

  datatype SummaryError =
    | MissingKeyColumn // `matrix.loc[..., "unique_jc"]` on a matrix without that column
    | NoSamples        // `summary_stats["isoforms_per_sample"]` when the loop never ran

  /** The keys whose cell in sample column `c` is positive. */
  function PresentKeys(m: Matrix, c: nat): (r: set<string>)
    requires m.WellFormed() && c < |m.samples|
    ensures forall k :: k in r <==> exists i :: 0 <= i < |m.rows| && m.rows[i].key == k && m.rows[i].values[c] > 0.0
  {
    set i | 0 <= i < |m.rows| && m.rows[i].values[c] > 0.0 :: m.rows[i].key
  }

  /** `isoform_info[isoform_info["unique_jc"].isin(present)]`: the rows
      whose key is present, in table order. */
  function PerSample(info: seq<InfoRecord>, present: set<string>): (r: seq<InfoRecord>)
    ensures |r| <= |info|
    ensures forall x :: x in r <==> x in info && x.uniqueJc in present
    ensures (forall x :: x in info ==> x.uniqueJc in present) ==> r == info
  {
    if info == [] then []
    else (if info[0].uniqueJc in present then [info[0]] else []) + PerSample(info[1..], present)
  }

  /** How many rows have category exactly `tag` (`value_counts` looked up
      by label, absent labels counting 0). */
  function LabelCount(rows: seq<InfoRecord>, tag: string): (n: nat)
    ensures n <= |rows|
    ensures n == 0 <==> forall x :: x in rows ==> x.category != tag
  {
    if rows == [] then 0
    else (if rows[0].category == tag then 1 else 0) + LabelCount(rows[1..], tag)
  }

  /** How many rows have a category that `cat_map` sends to `tag`. */
  function MappedCount(rows: seq<InfoRecord>, tag: string): (n: nat)
    ensures n <= |rows|
    ensures n == 0 <==> forall x :: x in rows ==> x.category !in CatMap || CatMap[x.category] != tag
  {
    if rows == [] then 0
    else (if rows[0].category in CatMap && CatMap[rows[0].category] == tag then 1 else 0) + MappedCount(rows[1..], tag)
  }

  /** `cat_map` sends a category to the k-th label exactly when it is the
      k-th raw name. */
  lemma MapsToLabel(cat: string, k: nat)
    requires k < |Categories|
    ensures (cat in CatMap && CatMap[cat] == Categories[k]) <==> cat == RawCategories[k]
  {
    CatMapPairs();
    CategoryNames();
    if cat in CatMap && CatMap[cat] == Categories[k] {
      var i :| 0 <= i < |RawCategories| && RawCategories[i] == cat;
      assert Categories[i] == Categories[k];
    }
  }

  /** The label counted by `MappedCount` is the raw name at the same
      position: the FSM column counts the full-splice matches. */
  lemma {:induction false} MappedCountIsRawCount(rows: seq<InfoRecord>, k: nat)
    requires k < |Categories|
    ensures MappedCount(rows, Categories[k]) == LabelCount(rows, RawCategories[k])
  {
    if rows != [] {
      MapsToLabel(rows[0].category, k);
      MappedCountIsRawCount(rows[1..], k);
    }
  }

  /** The rows whose category is one of `names`. */
  function KnownCount(rows: seq<InfoRecord>, names: seq<string>): (n: nat)
    ensures n <= |rows|
  {
    if rows == [] then 0
    else (if rows[0].category in names then 1 else 0) + KnownCount(rows[1..], names)
  }

  /** The sum over `names` of the rows with each name. */
  function SumLabelCounts(rows: seq<InfoRecord>, names: seq<string>): nat {
    if names == [] then 0 else LabelCount(rows, names[0]) + SumLabelCounts(rows, names[1..])
  }

  /** How many of `names` a single category equals. */
  function Hits(cat: string, names: seq<string>): nat {
    if names == [] then 0 else (if names[0] == cat then 1 else 0) + Hits(cat, names[1..])
  }

  lemma {:induction false} HitsDistinct(cat: string, names: seq<string>)
    requires Distinct(names)
    ensures Hits(cat, names) == if cat in names then 1 else 0
  {
    if names != [] {
      assert Distinct(names[1..]);
      HitsDistinct(cat, names[1..]);
      assert names == [names[0]] + names[1..];
    }
  }

  lemma {:induction false} SumLabelCountsCons(rows: seq<InfoRecord>, names: seq<string>)
    requires rows != []
    ensures SumLabelCounts(rows, names) == Hits(rows[0].category, names) + SumLabelCounts(rows[1..], names)
  {
    if names != [] {
      SumLabelCountsCons(rows, names[1..]);
    }
  }

  /** Counting every name of a list of distinct names counts each row whose
      category is in the list exactly once. */
  lemma {:induction false} SumLabelCountsIsKnown(rows: seq<InfoRecord>, names: seq<string>)
    requires Distinct(names)
    ensures SumLabelCounts(rows, names) == KnownCount(rows, names)
  {
    if rows == [] {
      SumLabelCountsEmpty(names);
    } else {
      SumLabelCountsCons(rows, names);
      HitsDistinct(rows[0].category, names);
      SumLabelCountsIsKnown(rows[1..], names);
    }
  }

  lemma {:induction false} SumLabelCountsEmpty(names: seq<string>)
    ensures SumLabelCounts([], names) == 0
  {
    if names != [] {
      SumLabelCountsEmpty(names[1..]);
    }
  }

  /** The corrected category counts of a sample, one per display label,
      each counting the rows whose raw category `cat_map` sends to that
      label. The statistics themselves use `CategoryCountsAsWritten`. */
  function CategoryCounts(rows: seq<InfoRecord>): (r: seq<nat>)
    ensures |r| == |Categories|
    ensures forall k :: 0 <= k < |Categories| ==> r[k] == LabelCount(rows, RawCategories[k])
  {
    CategoryNames();
    forall k | 0 <= k < |Categories|
      ensures MappedCount(rows, Categories[k]) == LabelCount(rows, RawCategories[k])
    {
      MappedCountIsRawCount(rows, k);
    }
    seq(|Categories|, k requires 0 <= k < |Categories| => MappedCount(rows, Categories[k]))
  }

  /** The sum over the nine positions of a count vector. */
  function Total(counts: seq<nat>): nat {
    if counts == [] then 0 else counts[0] + Total(counts[1..])
  }

  lemma {:induction false} TotalIsSum(rows: seq<InfoRecord>, names: seq<string>, counts: seq<nat>)
    requires |counts| == |names| && forall k :: 0 <= k < |names| ==> counts[k] == LabelCount(rows, names[k])
    ensures Total(counts) == SumLabelCounts(rows, names)
  {
    if names != [] {
      TotalIsSum(rows, names[1..], counts[1..]);
    }
  }

  /** Every row with a known raw category is counted under exactly one
      label; rows with any other category are counted under none. */
  lemma CategoryCountsTotal(rows: seq<InfoRecord>)
    ensures Total(CategoryCounts(rows)) == KnownCount(rows, RawCategories)
    ensures Total(CategoryCounts(rows)) <= |rows|
    ensures (forall x :: x in rows ==> x.category in RawCategories) ==> Total(CategoryCounts(rows)) == |rows|
  {
    CategoryNames();
    TotalIsSum(rows, RawCategories, CategoryCounts(rows));
    SumLabelCountsIsKnown(rows, RawCategories);
    if forall x :: x in rows ==> x.category in RawCategories {
      AllKnown(rows, RawCategories);
    }
  }

  lemma {:induction false} AllKnown(rows: seq<InfoRecord>, names: seq<string>)
    requires forall x :: x in rows ==> x.category in names
    ensures KnownCount(rows, names) == |rows|
  {
    if rows != [] {
      assert rows[0] in rows;
      assert forall x :: x in rows[1..] ==> x in rows;
      AllKnown(rows[1..], names);
    }
  }

  /** The category counts as line 89 computes them: `value_counts` of the
      raw category column, looked up by display label. */
  function CategoryCountsAsWritten(rows: seq<InfoRecord>): (r: seq<nat>)
    ensures |r| == |Categories|
    ensures forall k :: 0 <= k < |Categories| ==> r[k] == LabelCount(rows, Categories[k])
  {
    seq(|Categories|, k requires 0 <= k < |Categories| => LabelCount(rows, Categories[k]))
  }

  /** As written, the nine columns add up to the rows whose category is one
      of the display labels. */
  lemma CategoryCountsAsWrittenTotal(rows: seq<InfoRecord>)
    ensures Total(CategoryCountsAsWritten(rows)) == KnownCount(rows, Categories)
    ensures Total(CategoryCountsAsWritten(rows)) <= |rows|
  {
    CategoryNames();
    TotalIsSum(rows, Categories, CategoryCountsAsWritten(rows));
    SumLabelCountsIsKnown(rows, Categories);
  }

  /** As written, a table whose categories are SQANTI3's raw names counts
      nothing in any column. */
  lemma {:induction false} AsWrittenCountsNothing(rows: seq<InfoRecord>)
    requires forall x :: x in rows ==> x.category in RawCategories
    ensures forall k :: 0 <= k < |Categories| ==> CategoryCountsAsWritten(rows)[k] == 0
  {
    CategoryNames();
    forall k | 0 <= k < |Categories|
      ensures LabelCount(rows, Categories[k]) == 0
    {
      forall x | x in rows
        ensures x.category != Categories[k]
      {
        var i :| 0 <= i < |RawCategories| && RawCategories[i] == x.category;
      }
    }
  }

  /** One full-splice match: the FSM column reads 0 as written and 1 once
      the name is mapped. */
  lemma AsWrittenCounterexample()
    ensures CategoryCountsAsWritten([InfoRecord("chr1_100_200", "full-splice_match", 2)])[0] == 0
    ensures CategoryCounts([InfoRecord("chr1_100_200", "full-splice_match", 2)])[0] == 1
  {
    var rows := [InfoRecord("chr1_100_200", "full-splice_match", 2)];
    CategoryNames();
    assert LabelCount(rows[1..], "FSM") == 0;
    assert LabelCount(rows[1..], RawCategories[0]) == 0;
  }

  /** Rows with exactly one exon. */
  function MonoCount(rows: seq<InfoRecord>): (n: nat)
    ensures n <= |rows|
    ensures n == 0 <==> forall x :: x in rows ==> x.exonsN != 1
  {
    if rows == [] then 0 else (if rows[0].exonsN == 1 then 1 else 0) + MonoCount(rows[1..])
  }

  /** Rows with any other exon count. */
  function MultiCount(rows: seq<InfoRecord>): (n: nat)
    ensures n <= |rows|
    ensures n == 0 <==> forall x :: x in rows ==> x.exonsN == 1
  {
    if rows == [] then 0 else (if rows[0].exonsN != 1 then 1 else 0) + MultiCount(rows[1..])
  }

  /** Every row is either mono- or multi-exonic. */
  lemma {:induction false} MonoMultiSplit(rows: seq<InfoRecord>)
    ensures MonoCount(rows) + MultiCount(rows) == |rows|
  {
    if rows != [] {
      MonoMultiSplit(rows[1..]);
    }
  }

  /** A `value_counts` entry assigned into a zero-filled table row: a label
      that does not occur is missing from the counts and becomes NaN. */
  function Cell(n: nat): (r: Option<nat>)
    ensures r.None? <==> n == 0
    ensures r.Some? ==> r.value == n
  {
    if n == 0 then None else Some(n)
  }

  function CellValue(c: Option<nat>): nat {
    if c.Some? then c.value else 0
  }

  /** The statistics of one sample. */
  datatype SampleStats = SampleStats(sample: string, isoforms: nat, categoryCounts: seq<nat>, mono: Option<nat>, multi: Option<nat>)

  /** The statistics of sample column `c`: named after the column, at most
      one isoform per table row, nine category counts, and mono- and
      multi-exon cells that add up to the isoform count. */
  function StatsFor(info: seq<InfoRecord>, m: Matrix, c: nat): (st: SampleStats)
    requires m.WellFormed() && c < |m.samples|
    ensures st.sample == m.samples[c] && st.isoforms <= |info|
    ensures |st.categoryCounts| == |Categories|
    ensures CellValue(st.mono) + CellValue(st.multi) == st.isoforms
  {
    var per := PerSample(info, PresentKeys(m, c));
    MonoMultiSplit(per);
    SampleStats(m.samples[c], |per|, CategoryCountsAsWritten(per), Cell(MonoCount(per)), Cell(MultiCount(per)))
  }

  /** What the statistics of a sample mean: the present isoforms are the
      table rows whose key has a positive cell in the sample's column; each
      category column counts the present rows whose category is literally
      that display label, so the nine columns add up to the present rows
      with a label as category and never to more than the present
      isoforms, and a table of SQANTI3 raw names counts zero everywhere; a
      mono- or multi-exon cell is missing exactly when no present row is of
      that kind, and the two cells add up to the present isoforms. */
  lemma StatsMeaning(info: seq<InfoRecord>, m: Matrix, c: nat)
    requires m.WellFormed() && c < |m.samples|
    ensures var st := StatsFor(info, m, c); var per := PerSample(info, PresentKeys(m, c));
      && st.sample == m.samples[c]
      && (forall x :: x in per <==> x in info && exists i :: 0 <= i < |m.rows| && m.rows[i].key == x.uniqueJc && m.rows[i].values[c] > 0.0)
      && st.isoforms == |per| <= |info|
      && |st.categoryCounts| == |Categories|
      && (forall k :: 0 <= k < |Categories| ==> st.categoryCounts[k] == LabelCount(per, Categories[k]))
      && Total(st.categoryCounts) == KnownCount(per, Categories) <= st.isoforms
      && ((forall x :: x in per ==> x.category in RawCategories) ==> forall k :: 0 <= k < |Categories| ==> st.categoryCounts[k] == 0)
      && (st.mono.None? <==> forall x :: x in per ==> x.exonsN != 1)
      && (st.multi.None? <==> forall x :: x in per ==> x.exonsN == 1)
      && CellValue(st.mono) + CellValue(st.multi) == st.isoforms
  {
    var per := PerSample(info, PresentKeys(m, c));
    CategoryCountsAsWrittenTotal(per);
    MonoMultiSplit(per);
    if forall x :: x in per ==> x.category in RawCategories {
      AsWrittenCountsNothing(per);
    }
  }

  /** `stats` holds the statistics of the first `n` samples, in order. */
  predicate StatsUpTo(info: seq<InfoRecord>, m: Matrix, n: nat, stats: seq<SampleStats>)
    requires m.WellFormed() && n <= |m.samples|
  {
    |stats| == n && forall j :: 0 <= j < n ==> stats[j] == StatsFor(info, m, j)
  }

  lemma StatsUpToStep(info: seq<InfoRecord>, m: Matrix, n: nat, stats: seq<SampleStats>, st: SampleStats)
    requires m.WellFormed() && n < |m.samples|
    requires StatsUpTo(info, m, n, stats) && st == StatsFor(info, m, n)
    ensures StatsUpTo(info, m, n + 1, stats + [st])
  {
  }

  /** The statistics loop over `samples`: the matrix must carry the key
      column once any sample is read, and the tables read afterwards exist
      only when some sample was processed. On success there is one record
      per sample, in column order, whose category counts are those of line
      89 as written (see `StatsMeaning`). */
  method SummaryStats(info: seq<InfoRecord>, m: Matrix) returns (r: Result<seq<SampleStats>, SummaryError>)
    requires m.WellFormed()
    ensures m.samples != [] && m.keyColumn != KeyColumn ==> r == Err(MissingKeyColumn)
    ensures m.samples == [] ==> r == Err(NoSamples)
    ensures r.Ok? <==> m.samples != [] && m.keyColumn == KeyColumn
    ensures r.Ok? ==> |r.value| == |m.samples|
    ensures r.Ok? ==> forall c :: 0 <= c < |m.samples| ==> r.value[c] == StatsFor(info, m, c)
  {
    var stats: seq<SampleStats> := [];
    for c := 0 to |m.samples|
      invariant c > 0 ==> m.keyColumn == KeyColumn
      invariant StatsUpTo(info, m, c, stats)
    {
      if m.keyColumn != KeyColumn {
        return Err(MissingKeyColumn);
      }
      var present := PresentKeys(m, c);
      var per := PerSample(info, present);
      var counts := CategoryCountsAsWritten(per);
      var st := SampleStats(m.samples[c], |per|, counts, Cell(MonoCount(per)), Cell(MultiCount(per)));
      StatsUpToStep(info, m, c, stats, st);
      stats := stats + [st];
    }
    if stats == [] {
      return Err(NoSamples);
    }
    r := Ok(stats);
  }

  /** `[s for s in samples if row[s] > 0]`: the samples, in column order,
      whose value is positive. */
  function Membership(samples: seq<string>, values: seq<real>): (r: seq<string>)
    requires |values| == |samples|
    ensures |r| <= |samples|
    ensures forall s :: s in r <==> exists c :: 0 <= c < |samples| && samples[c] == s && values[c] > 0.0
    ensures Distinct(samples) ==> Distinct(r)
  {
    if samples == [] then []
    else
      var rest := Membership(samples[1..], values[1..]);
      if values[0] > 0.0 then
        assert Distinct(samples) ==> samples[0] !in rest && Distinct(samples[1..]);
        [samples[0]] + rest
      else rest
  }

  /** A sample is in a row's membership exactly when the row's key is
      present for it in the statistics loop, given the row's value. */
  lemma MembershipAgreesWithPresence(m: Matrix, i: nat, c: nat)
    requires m.WellFormed() && i < |m.rows| && c < |m.samples|
    ensures m.samples[c] in Membership(m.samples, m.rows[i].values) <==> m.rows[i].values[c] > 0.0
    ensures m.samples[c] in Membership(m.samples, m.rows[i].values) ==> m.rows[i].key in PresentKeys(m, c)
  {
    var samples := m.samples;
    assert Distinct(samples) by {
      forall a, b | 0 <= a < b < |samples| ensures samples[a] != samples[b] {
        assert ([m.keyColumn] + samples)[a + 1] == samples[a];
        assert ([m.keyColumn] + samples)[b + 1] == samples[b];
      }
    }
    if samples[c] in Membership(samples, m.rows[i].values) {
      var d :| 0 <= d < |samples| && samples[d] == samples[c] && m.rows[i].values[d] > 0.0;
      assert d == c;
    }
  }

  /** The membership list of the UpSet plot, built when there are fewer
      than seven samples: one entry per matrix row, in row order. It is
      reached only after the statistics loop has read the key column. */
  method Memberships(m: Matrix) returns (r: Option<seq<seq<string>>>)
    requires m.WellFormed() && m.keyColumn == KeyColumn
    ensures r.None? <==> |m.samples| >= 7
    ensures r.Some? ==> |r.value| == |m.rows|
    ensures r.Some? ==> forall i :: 0 <= i < |m.rows| ==> r.value[i] == Membership(m.samples, m.rows[i].values)
  {
    if |m.samples| >= 7 {
      return None;
    }
    var memberships: seq<seq<string>> := [];
    for i := 0 to |m.rows|
      invariant |memberships| == i
      invariant forall j :: 0 <= j < i ==> memberships[j] == Membership(m.samples, m.rows[j].values)
    {
      memberships := memberships + [Membership(m.samples, m.rows[i].values)];
    }
    r := Some(memberships);
  }
}
