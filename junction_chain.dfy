/** The junction-chain fingerprint of a transcript, read off a sample's GTF
    rows: the chromosome of its first exon followed by the start and end of
    every exon in ascending start order. */
module JunctionChain {
  import opened Wrappers
  import opened Order
  import opened Dicts
  import opened Tables
  import opened GtfAttributes

  /** An element of a chain: the chromosome name, or a coordinate. */
  datatype Item = Chrom(name: string) | Coord(pos: int)

  type Chain = seq<Item>

  const ExonFeature := "exon"

  /** `gtf[gtf["feature"] == "exon"]` */
  function ExonRows(gtf: seq<GtfRow>): (r: seq<GtfRow>)
    ensures forall g :: g in r <==> g in gtf && g.feature == ExonFeature
    ensures |r| <= |gtf|
  {
    if gtf == [] then []
    else
      var r := ExonRows(gtf[1..]);
      if gtf[0].feature == ExonFeature then [gtf[0]] + r else r
  }

  /** The `transcript_id` column: `get_transcript_id` applied to every
      row's attribute field. */
  function TidColumn(exons: seq<GtfRow>): (r: seq<TidResult>)
    ensures |r| == |exons|
    ensures forall j :: 0 <= j < |exons| ==> r[j] == TranscriptId(exons[j].attribute)
  {
    seq(|exons|, j requires 0 <= j < |exons| => TranscriptId(exons[j].attribute))
  }

  /** Some row of the column holds transcript id `t`. */
  ghost predicate HasId(tids: seq<TidResult>, t: string) {
    exists j :: 0 <= j < |tids| && tids[j] == Found(t)
  }

  /** The rows of one `groupby("transcript_id")` group, in table order. */
  function RowsOf(exons: seq<GtfRow>, tids: seq<TidResult>, tid: string): (r: seq<GtfRow>)
    requires |tids| == |exons|
    ensures forall g :: g in r ==> g in exons
    ensures HasId(tids, tid) ==> |r| > 0
    ensures |r| <= |exons|
  {
    if exons == [] then []
    else
      var r := RowsOf(exons[1..], tids[1..], tid);
      assert HasId(tids, tid) && tids[0] != Found(tid) ==> HasId(tids[1..], tid) by {
        if HasId(tids, tid) && tids[0] != Found(tid) {
          var j :| 0 <= j < |tids| && tids[j] == Found(tid);
          assert tids[1..][j - 1] == tids[j];
        }
      }
      if tids[0] == Found(tid) then [exons[0]] + r else r
  }

  /** The exon rows of transcript `tid`. */
  function ExonsOf(gtf: seq<GtfRow>, tid: string): seq<GtfRow> {
    var exons := ExonRows(gtf);
    RowsOf(exons, TidColumn(exons), tid)
  }

  predicate SortedByStart(xs: seq<GtfRow>) {
    forall i, j :: 0 <= i < j < |xs| ==> xs[i].start <= xs[j].start
  }

  /** `xs` is `exons` reordered by ascending start. */
  predicate SortedPermutation(xs: seq<GtfRow>, exons: seq<GtfRow>) {
    multiset(xs) == multiset(exons) && SortedByStart(xs)
  }

  /** The coordinates `start1, end1, start2, end2, ...` of some exons. */
  function Pairs(xs: seq<GtfRow>): (r: seq<Item>)
    ensures |r| == 2 * |xs|
    ensures forall k :: 0 <= k < |r| ==> r[k].Coord?
    ensures forall i :: 0 <= i < |xs| ==> r[2 * i] == Coord(xs[i].start) && r[2 * i + 1] == Coord(xs[i].end)
  {
    if xs == [] then []
    else Pairs(xs[..|xs| - 1]) + [Coord(xs[|xs| - 1].start), Coord(xs[|xs| - 1].end)]
  }

  /** `(chrom, start1, end1, start2, end2, ...)` of sorted exons: the
      first exon's chromosome, then each exon's coordinates in order. */
  function ChainOf(xs: seq<GtfRow>): (c: Chain)
    requires |xs| > 0
    ensures |c| == 1 + 2 * |xs| && c[0] == Chrom(xs[0].chr)
    ensures forall i :: 0 <= i < |xs| ==> c[1 + 2 * i] == Coord(xs[i].start) && c[2 + 2 * i] == Coord(xs[i].end)
  {
    [Chrom(xs[0].chr)] + Pairs(xs)
  }

  /** A chain gives back the exon coordinates it was built from: two exon
      lists with the same chain have the same first chromosome and the same
      starts and ends, position by position. */
  lemma ChainOfCoordinates(xs: seq<GtfRow>, ys: seq<GtfRow>)
    requires |xs| > 0 && |ys| > 0 && ChainOf(xs) == ChainOf(ys)
    ensures |xs| == |ys| && xs[0].chr == ys[0].chr
    ensures forall i :: 0 <= i < |xs| ==> xs[i].start == ys[i].start && xs[i].end == ys[i].end
  {
    var c := ChainOf(xs);
    forall i | 0 <= i < |xs|
      ensures xs[i].start == ys[i].start && xs[i].end == ys[i].end
    {
      assert c[1 + 2 * i] == Coord(xs[i].start) == Coord(ys[i].start);
      assert c[2 + 2 * i] == Coord(xs[i].end) == Coord(ys[i].end);
    }
  }

  /** `chain` is the chain of `exons` under some start-sorted order of them:
      `sort_values("start")` does not say how exons with equal starts are
      ordered. */
  ghost predicate IsChainOf(exons: seq<GtfRow>, chain: Chain) {
    exists xs :: SortedPermutation(xs, exons) && |xs| > 0 && chain == ChainOf(xs)
  }

  /** Places `x` among start-sorted rows. */
  function InsertByStart(x: GtfRow, s: seq<GtfRow>): (r: seq<GtfRow>)
    requires SortedByStart(s)
    ensures SortedByStart(r)
    ensures multiset(r) == multiset(s) + multiset{x}
  {
    if s == [] || x.start <= s[0].start then
      ConsSorted(x, s);
      [x] + s
    else
      var t := InsertByStart(x, s[1..]);
      HeadBounds(x, s, t);
      ConsSorted(s[0], t);
      assert s == [s[0]] + s[1..];
      [s[0]] + t
  }

  /** A row that starts no later than every row of sorted `t` can lead it. */
  lemma ConsSorted(h: GtfRow, t: seq<GtfRow>)
    requires SortedByStart(t)
    requires forall y :: y in t ==> h.start <= y.start
    ensures SortedByStart([h] + t)
  {
    forall i, j | 0 <= i < j < |[h] + t|
      ensures ([h] + t)[i].start <= ([h] + t)[j].start
    {
      assert ([h] + t)[j] == t[j - 1];
      if i > 0 {
        assert ([h] + t)[i] == t[i - 1];
      } else {
        assert t[j - 1] in t;
      }
    }
  }

  /** The head of sorted `s` starts no later than anything inserted after it. */
  lemma HeadBounds(x: GtfRow, s: seq<GtfRow>, t: seq<GtfRow>)
    requires SortedByStart(s) && s != [] && s[0].start < x.start
    requires multiset(t) == multiset(s[1..]) + multiset{x}
    ensures forall y :: y in t ==> s[0].start <= y.start
  {
    forall y | y in t ensures s[0].start <= y.start {
      assert y in multiset(t);
      if y != x {
        assert y in multiset(s[1..]);
        var j :| 0 <= j < |s[1..]| && s[1..][j] == y;
        assert s[j + 1] == y;
      }
    }
  }

  /** `df.sort_values("start")` */
  method SortByStart(xs: seq<GtfRow>) returns (ys: seq<GtfRow>)
    ensures SortedPermutation(ys, xs)
  {
    ys := [];
    for i := 0 to |xs|
      invariant SortedByStart(ys) && multiset(ys) == multiset(xs[..i])
    {
      ys := InsertByStart(xs[i], ys);
      assert xs[..i + 1] == xs[..i] + [xs[i]];
    }
    assert xs[..|xs|] == xs;
  }

  /** `chain = [first chr]; chain.extend([start, end])` for every row. */
  method BuildChain(sorted: seq<GtfRow>) returns (chain: Chain)
    requires |sorted| > 0
    ensures chain == ChainOf(sorted)
  {
    chain := [Chrom(sorted[0].chr)];
    for i := 0 to |sorted|
      invariant chain == [Chrom(sorted[0].chr)] + Pairs(sorted[..i])
    {
      assert sorted[..i + 1][..i] == sorted[..i];
      chain := chain + [Coord(sorted[i].start), Coord(sorted[i].end)];
    }
    assert sorted[..|sorted|] == sorted;
  }

  /** Outcome of reading one exon row's transcript id. */
  datatype ChainError = MissingQuote

  predicate HasExonWithoutQuote(gtf: seq<GtfRow>) {
    exists g :: g in gtf && g.feature == ExonFeature && TranscriptId(g.attribute).NoQuote?
  }

  /** What `extract_junction_chain_from_gtf` returns for `gtf`: one entry per
      transcript id found on an exon row, in ascending id order, each holding
      the chain of that transcript's exons. */
  ghost predicate ChainsFor(gtf: seq<GtfRow>, chains: Dict<string, Chain>) {
    && chains.Valid()
    && StrictlySorted(chains.keys)
    && (forall t :: t in chains.entries <==> HasId(TidColumn(ExonRows(gtf)), t))
    && GroupChains(ExonRows(gtf), TidColumn(ExonRows(gtf)), chains.entries)
  }

  /** `extract_junction_chain_from_gtf`: the transcript id of every exon row
      is read first (an exon row whose transcript_id field has no quote
      raises), then each id's rows are sorted by start and flattened. */
  method ExtractChains(gtf: seq<GtfRow>) returns (r: Result<Dict<string, Chain>, ChainError>)
    ensures r.Err? <==> HasExonWithoutQuote(gtf)
    ensures r.Ok? ==> ChainsFor(gtf, r.value)
  {
    var exons := ExonRows(gtf);
    var tids := TidColumn(exons);
    var ids := ReadTranscriptIds(tids);
    NoQuoteIff(gtf);
    if ids.Err? {
      return Err(MissingQuote);
    }
    var chains := ChainsByTranscript(exons, tids, ids.value);
    r := Ok(chains);
  }

  /** A row of the `transcript_id` column is a raise exactly when some exon
      row's transcript_id field has no quote. */
  lemma NoQuoteIff(gtf: seq<GtfRow>)
    ensures (exists j :: 0 <= j < |ExonRows(gtf)| && TidColumn(ExonRows(gtf))[j].NoQuote?) <==> HasExonWithoutQuote(gtf)
  {
    var exons := ExonRows(gtf);
    var tids := TidColumn(exons);
    if HasExonWithoutQuote(gtf) {
      var g :| g in gtf && g.feature == ExonFeature && TranscriptId(g.attribute).NoQuote?;
      assert g in exons;
      var j :| 0 <= j < |exons| && exons[j] == g;
      assert tids[j].NoQuote?;
    }
    if exists j :: 0 <= j < |exons| && tids[j].NoQuote? {
      var j :| 0 <= j < |exons| && tids[j].NoQuote?;
      assert exons[j] in exons;
    }
  }

  /** `exons["attribute"].apply(get_transcript_id)` as far as the groupby
      sees it: the ids found, in row order; the first row whose
      transcript_id field has no quote raises. */
  method ReadTranscriptIds(tids: seq<TidResult>) returns (r: Result<seq<string>, ChainError>)
    ensures r.Err? <==> exists j :: 0 <= j < |tids| && tids[j].NoQuote?
    ensures r.Ok? ==> forall t :: t in r.value <==> HasId(tids, t)
  {
    var ids: seq<string> := [];
    for i := 0 to |tids|
      invariant forall j :: 0 <= j < i ==> !tids[j].NoQuote?
      invariant forall t :: t in ids <==> HasId(tids[..i], t)
    {
      IdsStep(tids, i);
      match tids[i]
      case NoQuote =>
        return Err(MissingQuote);
      case NoTranscriptField =>
      case Found(t) =>
        ids := ids + [t];
    }
    assert tids[..|tids|] == tids;
    r := Ok(ids);
  }

  /** Extending the column by one row adds that row's id, if it has one. */
  lemma IdsStep(tids: seq<TidResult>, i: nat)
    requires i < |tids|
    ensures forall u :: HasId(tids[..i + 1], u) <==> HasId(tids[..i], u) || tids[i] == Found(u)
  {
    forall u ensures HasId(tids[..i + 1], u) <==> HasId(tids[..i], u) || tids[i] == Found(u) {
      assert forall j :: 0 <= j < i ==> tids[..i + 1][j] == tids[..i][j];
      assert tids[..i + 1][i] == tids[i];
    }
  }

  /** The `groupby("transcript_id")` loop: one chain per id, in ascending id
      order. */
  method ChainsByTranscript(exons: seq<GtfRow>, tids: seq<TidResult>, ids: seq<string>) returns (chains: Dict<string, Chain>)
    requires |tids| == |exons|
    requires forall t :: t in ids <==> HasId(tids, t)
    ensures chains.Valid() && StrictlySorted(chains.keys)
    ensures forall t :: t in chains.entries <==> HasId(tids, t)
    ensures GroupChains(exons, tids, chains.entries)
  {
    var keys := SortedKeys(ids);
    SortedIsDistinct(keys);
    chains := ChainsInOrder(exons, tids, keys);
  }

  /** Visits the groups in the order of `keys`, storing each group's chain. */
  method ChainsInOrder(exons: seq<GtfRow>, tids: seq<TidResult>, keys: seq<string>) returns (chains: Dict<string, Chain>)
    requires |tids| == |exons|
    requires forall i, j :: 0 <= i < j < |keys| ==> keys[i] != keys[j]
    requires forall t :: t in keys ==> HasId(tids, t)
    ensures chains.Valid() && chains.keys == keys
    ensures GroupChains(exons, tids, chains.entries)
  {
    chains := Empty();
    for k := 0 to |keys|
      invariant chains.Valid() && chains.keys == keys[..k]
      invariant GroupChains(exons, tids, chains.entries)
    {
      var tid := keys[k];
      assert keys[..k + 1] == keys[..k] + [tid];
      assert tid !in chains.entries;
      var chain := GroupChain(RowsOf(exons, tids, tid));
      GroupChainsPut(exons, tids, chains.entries, tid, chain);
      chains := chains.Put(tid, chain);
    }
    assert keys[..|keys|] == keys;
  }

  /** Every entry of `m` is the chain of the rows grouped under its id. */
  ghost predicate GroupChains(exons: seq<GtfRow>, tids: seq<TidResult>, m: map<string, Chain>)
    requires |tids| == |exons|
  {
    forall t :: t in m ==> IsChainOf(RowsOf(exons, tids, t), m[t])
  }

  lemma GroupChainsPut(exons: seq<GtfRow>, tids: seq<TidResult>, m: map<string, Chain>, tid: string, chain: Chain)
    requires |tids| == |exons|
    requires GroupChains(exons, tids, m) && IsChainOf(RowsOf(exons, tids, tid), chain)
    ensures GroupChains(exons, tids, m[tid := chain])
  {
  }

  /** The body of the groupby loop for one group: sort by start, then
      flatten. */
  method GroupChain(rows: seq<GtfRow>) returns (chain: Chain)
    requires |rows| > 0
    ensures IsChainOf(rows, chain)
  {
    var sorted := SortByStart(rows);
    assert |sorted| == |multiset(sorted)| == |multiset(rows)| == |rows|;
    chain := BuildChain(sorted);
  }

  /** The rows grouped under `tid` are exactly the exon rows whose
      transcript_id field names `tid`. */
  lemma {:induction false} RowsOfMembers(exons: seq<GtfRow>, tid: string, g: GtfRow)
    ensures g in RowsOf(exons, TidColumn(exons), tid) <==> g in exons && TranscriptId(g.attribute) == Found(tid)
  {
    if exons != [] {
      RowsOfMembers(exons[1..], tid, g);
      assert TidColumn(exons)[1..] == TidColumn(exons[1..]);
      assert exons == [exons[0]] + exons[1..];
    }
  }

  /** An id is grouped exactly when some exon row of the table names it. */
  lemma ExonIdIff(gtf: seq<GtfRow>, t: string)
    ensures HasId(TidColumn(ExonRows(gtf)), t) <==>
      exists g :: g in gtf && g.feature == ExonFeature && TranscriptId(g.attribute) == Found(t)
  {
    var exons := ExonRows(gtf);
    var tids := TidColumn(exons);
    if exists g :: g in gtf && g.feature == ExonFeature && TranscriptId(g.attribute) == Found(t) {
      var g :| g in gtf && g.feature == ExonFeature && TranscriptId(g.attribute) == Found(t);
      assert g in exons;
      var j :| 0 <= j < |exons| && exons[j] == g;
      assert tids[j] == Found(t);
    }
    if HasId(tids, t) {
      var j :| 0 <= j < |tids| && tids[j] == Found(t);
      assert exons[j] in exons;
    }
  }

  /** A chain is the chromosome followed by one (start, end) pair per exon,
      with the starts ascending. */
  lemma ChainShape(exons: seq<GtfRow>, chain: Chain)
    requires IsChainOf(exons, chain)
    ensures |chain| == 1 + 2 * |exons|
    ensures chain[0].Chrom? && forall k :: 1 <= k < |chain| ==> chain[k].Coord?
    ensures forall i, j :: 0 <= i < j < |exons| ==> chain[1 + 2 * i].pos <= chain[1 + 2 * j].pos
  {
    var xs :| SortedPermutation(xs, exons) && |xs| > 0 && chain == ChainOf(xs);
    assert |xs| == |multiset(xs)| == |multiset(exons)| == |exons|;
    ChainOfShape(xs);
  }

  lemma ChainOfShape(xs: seq<GtfRow>)
    requires |xs| > 0 && SortedByStart(xs)
    ensures |ChainOf(xs)| == 1 + 2 * |xs|
    ensures ChainOf(xs)[0].Chrom? && forall k :: 1 <= k < |ChainOf(xs)| ==> ChainOf(xs)[k].Coord?
    ensures forall i, j :: 0 <= i < j < |xs| ==> ChainOf(xs)[1 + 2 * i].pos <= ChainOf(xs)[1 + 2 * j].pos
  {
    var chain := ChainOf(xs);
    var p := Pairs(xs);
    assert forall k :: 1 <= k < |chain| ==> chain[k] == p[k - 1];
    forall i, j | 0 <= i < j < |xs|
      ensures chain[1 + 2 * i].pos <= chain[1 + 2 * j].pos
    {
      assert chain[1 + 2 * i] == p[2 * i] && chain[1 + 2 * j] == p[2 * j];
    }
  }

  /** Exons that share a start are the same row. */
  predicate TiesIdentical(exons: seq<GtfRow>) {
    forall a, b :: a in exons && b in exons && a.start == b.start ==> a == b
  }

  /** Two start-sorted orderings of the same exons are the same ordering
      when exons sharing a start are identical. */
  lemma {:induction false} SortedUnique(xs: seq<GtfRow>, ys: seq<GtfRow>)
    requires SortedByStart(xs) && SortedByStart(ys) && multiset(xs) == multiset(ys)
    requires TiesIdentical(xs)
    ensures xs == ys
  {
    assert |xs| == |multiset(xs)| == |multiset(ys)| == |ys|;
    if xs != [] {
      SameHead(xs, ys);
      SameTail(xs, ys);
      SortedUnique(xs[1..], ys[1..]);
    }
  }

  lemma SameHead(xs: seq<GtfRow>, ys: seq<GtfRow>)
    requires SortedByStart(xs) && SortedByStart(ys) && multiset(xs) == multiset(ys)
    requires TiesIdentical(xs) && xs != [] && ys != []
    ensures xs[0] == ys[0]
  {
    assert xs[0] in multiset(ys) && ys[0] in multiset(xs);
    var a :| 0 <= a < |ys| && ys[a] == xs[0];
    var b :| 0 <= b < |xs| && xs[b] == ys[0];
    assert xs[0].start <= xs[b].start;
    assert ys[0].start <= ys[a].start;
  }

  lemma SameTail<T>(xs: seq<T>, ys: seq<T>)
    requires xs != [] && ys != [] && xs[0] == ys[0] && multiset(xs) == multiset(ys)
    ensures multiset(xs[1..]) == multiset(ys[1..])
  {
    assert xs == [xs[0]] + xs[1..] && ys == [ys[0]] + ys[1..];
    assert multiset(xs) == multiset{xs[0]} + multiset(xs[1..]);
    assert multiset(ys) == multiset{ys[0]} + multiset(ys[1..]);
    forall z ensures multiset(xs[1..])[z] == multiset(ys[1..])[z] {
      assert multiset(xs)[z] == multiset{xs[0]}[z] + multiset(xs[1..])[z];
      assert multiset(ys)[z] == multiset{ys[0]}[z] + multiset(ys[1..])[z];
    }
  }

  /** When exons sharing a start are identical rows (in particular when all
      starts differ), the chain does not depend on how `sort_values` breaks
      ties: it is unique. */
  lemma ChainUnique(exons: seq<GtfRow>, c1: Chain, c2: Chain)
    requires TiesIdentical(exons)
    requires IsChainOf(exons, c1) && IsChainOf(exons, c2)
    ensures c1 == c2
  {
    var xs :| SortedPermutation(xs, exons) && |xs| > 0 && c1 == ChainOf(xs);
    var ys :| SortedPermutation(ys, exons) && |ys| > 0 && c2 == ChainOf(ys);
    forall x | x in xs ensures x in exons {
      assert x in multiset(xs);
    }
    SortedUnique(xs, ys);
  }
}
