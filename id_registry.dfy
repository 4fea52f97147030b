/** The universal-id registry shared by both versions of
    `standardize_isoforms_cross_sample`: every distinct junction chain found
    in any sample gets one id `<prefix>N`, and each sample's classification,
    junction and expression rows are tagged through the per-sample map from
    transcript id to universal id. */
module IdRegistry {
  import opened Wrappers
  import opened Text
  import opened Decimal
  import opened Dicts
  import opened Tables
  import opened JunctionChain

  /** `f"{prefix}{n}"` */
  function IdName(prefix: string, n: nat): string {
    prefix + NatToString(n)
  }

  /** No two chains share an id. */
  predicate Injective(ids: map<Chain, string>) {
    forall c1, c2 :: c1 in ids && c2 in ids && ids[c1] == ids[c2] ==> c1 == c2
  }

  /** `list(all_chains_set)`: the members of the set in its own iteration
      order, which the program does not choose. */
  method ListOfSet(chains: set<Chain>) returns (unique: seq<Chain>)
    ensures Distinct(unique)
    ensures forall c :: c in unique <==> c in chains
    ensures |unique| == |chains|
  {
    unique := [];
    var rest := chains;
    while rest != {}
      invariant rest <= chains
      invariant Distinct(unique)
      invariant forall c :: c in unique <==> c in chains && c !in rest
      invariant |unique| + |rest| == |chains|
      decreases |rest|
    {
      var c :| c in rest;
      unique := unique + [c];
      rest := rest - {c};
    }
  }

  /** `{tuple(chain): f"{prefix}{i+1}" for i, chain in enumerate(unique)}`:
      a chain listed more than once keeps the number of its last position. */
  function Enumerate(unique: seq<Chain>, prefix: string): (ids: map<Chain, string>)
    ensures forall c :: c in ids <==> c in unique
  {
    if unique == [] then map[]
    else Enumerate(unique[..|unique| - 1], prefix)[unique[|unique| - 1] := IdName(prefix, |unique|)]
  }

  /** The chain at the last occurrence `j` is numbered `j + 1`. */
  lemma {:induction false} EnumerateLast(unique: seq<Chain>, prefix: string, j: nat)
    requires j < |unique| && LastAt(unique, j)
    ensures unique[j] in Enumerate(unique, prefix) && Enumerate(unique, prefix)[unique[j]] == IdName(prefix, j + 1)
  {
    var n := |unique| - 1;
    if j < n {
      var front := unique[..n];
      assert front[j] == unique[j] && unique[n] != unique[j];
      assert LastAt(front, j) by {
        forall k | j < k < n ensures front[k] != front[j] {
          assert front[k] == unique[k];
        }
      }
      EnumerateLast(front, prefix, j);
    }
  }

  /** Steps 3 and 4 of the standardisation: the distinct chains are listed in
      set order and numbered from 1. The ids are exactly `<prefix>1` ..
      `<prefix>N` for the N distinct chains, one per chain. */
  method AssignIds(chains: set<Chain>, prefix: string) returns (ids: map<Chain, string>)
    ensures ids.Keys == chains
    ensures Injective(ids)
    ensures |ids| == |chains|
    ensures forall c :: c in ids ==> exists n :: 1 <= n <= |ids| && ids[c] == IdName(prefix, n)
    ensures forall n :: 1 <= n <= |ids| ==> IdName(prefix, n) in ids.Values
  {
    var unique := ListOfSet(chains);
    ids := Enumerate(unique, prefix);
    EnumeratePositions(unique, prefix);
    EnumerateInjective(unique, prefix);
    assert ids.Keys == chains;
    MapCard(ids, chains);
    forall n | 1 <= n <= |ids|
      ensures IdName(prefix, n) in ids.Values
    {
      assert ids[unique[n - 1]] == IdName(prefix, n);
    }
  }

  /** A map has as many entries as keys. */
  lemma MapCard(ids: map<Chain, string>, chains: set<Chain>)
    requires ids.Keys == chains
    ensures |ids| == |chains|
  {
  }

  /** Numbering a duplicate-free list gives every chain the number of its
      position. */
  lemma EnumeratePositions(unique: seq<Chain>, prefix: string)
    requires Distinct(unique)
    ensures forall j :: 0 <= j < |unique| ==> Enumerate(unique, prefix)[unique[j]] == IdName(prefix, j + 1)
    ensures forall c :: c in Enumerate(unique, prefix) ==>
      exists n :: 1 <= n <= |unique| && Enumerate(unique, prefix)[c] == IdName(prefix, n)
  {
    var ids := Enumerate(unique, prefix);
    forall j | 0 <= j < |unique| ensures ids[unique[j]] == IdName(prefix, j + 1) {
      EnumerateLast(unique, prefix, j);
    }
    forall c | c in ids
      ensures exists n :: 1 <= n <= |unique| && ids[c] == IdName(prefix, n)
    {
      var j :| 0 <= j < |unique| && unique[j] == c;
      assert ids[c] == IdName(prefix, j + 1);
    }
  }

  /** Numbering a duplicate-free list gives distinct chains distinct ids. */
  lemma EnumerateInjective(unique: seq<Chain>, prefix: string)
    requires Distinct(unique)
    ensures Injective(Enumerate(unique, prefix))
  {
    var ids := Enumerate(unique, prefix);
    EnumeratePositions(unique, prefix);
    forall c1, c2 | c1 in ids && c2 in ids && ids[c1] == ids[c2]
      ensures c1 == c2
    {
      var j1 :| 0 <= j1 < |unique| && unique[j1] == c1;
      var j2 :| 0 <= j2 < |unique| && unique[j2] == c2;
      PrefixedInjective(prefix, j1 + 1, j2 + 1);
    }
  }

  /** The chains of samples `keys`, gathered in order. */
  function ChainsOf(sc: map<string, Dict<string, Chain>>, keys: seq<string>): set<Chain>
    requires forall s :: s in keys ==> s in sc
  {
    if keys == [] then {}
    else ChainsOf(sc, keys[..|keys| - 1]) + sc[keys[|keys| - 1]].entries.Values
  }

  /** A chain is gathered exactly when one of the samples maps some transcript
      to it. */
  lemma {:induction false} ChainsOfMembers(sc: map<string, Dict<string, Chain>>, keys: seq<string>, c: Chain)
    requires forall s :: s in keys ==> s in sc
    ensures c in ChainsOf(sc, keys) <==> exists s :: s in keys && c in sc[s].entries.Values
  {
    if keys != [] {
      var front := keys[..|keys| - 1];
      ChainsOfMembers(sc, front, c);
      assert keys == front + [keys[|keys| - 1]];
      if exists s :: s in keys && c in sc[s].entries.Values {
        var s :| s in keys && c in sc[s].entries.Values;
        if s != keys[|keys| - 1] {
          assert s in front;
        }
      }
    }
  }

  /** `all_chains_set` once the collection loop is done. */
  function AllChains(sc: Dict<string, Dict<string, Chain>>): set<Chain>
    requires sc.Valid()
  {
    ChainsOf(sc.entries, sc.keys)
  }

  /** Step 3: `for chains in sample_chains.values(): for chain in
      chains.values(): all_chains_set.add(tuple(chain))`. The result is
      every chain of every sample. */
  method CollectChains(sc: Dict<string, Dict<string, Chain>>) returns (all: set<Chain>)
    requires sc.Valid()
    requires forall s :: s in sc.entries ==> sc.entries[s].Valid()
    ensures all == AllChains(sc)
    ensures forall c :: c in all <==> exists s, t :: s in sc.entries && t in sc.entries[s].entries && sc.entries[s].entries[t] == c
  {
    all := {};
    for i := 0 to |sc.keys|
      invariant all == ChainsOf(sc.entries, sc.keys[..i])
    {
      assert sc.keys[..i + 1][..i] == sc.keys[..i];
      all := AddChains(all, sc.entries[sc.keys[i]]);
    }
    assert sc.keys[..|sc.keys|] == sc.keys;
    forall c ensures c in all <==> exists s, t :: s in sc.entries && t in sc.entries[s].entries && sc.entries[s].entries[t] == c {
      ChainsOfMembers(sc.entries, sc.keys, c);
    }
  }

  /** The inner loop over one sample's chains. */
  method AddChains(all: set<Chain>, chains: Dict<string, Chain>) returns (r: set<Chain>)
    requires chains.Valid()
    ensures r == all + chains.entries.Values
  {
    r := all;
    for k := 0 to |chains.keys|
      invariant r == all + (set t | t in chains.keys[..k] && t in chains.entries :: chains.entries[t])
    {
      var t := chains.keys[k];
      assert chains.keys[..k + 1] == chains.keys[..k] + [t];
      r := r + {chains.entries[t]};
    }
    assert chains.keys[..|chains.keys|] == chains.keys;
    assert (set t | t in chains.keys && t in chains.entries :: chains.entries[t]) == chains.entries.Values by {
      forall c | c in chains.entries.Values
        ensures c in (set t | t in chains.keys && t in chains.entries :: chains.entries[t])
      {
        var t :| t in chains.entries && chains.entries[t] == c;
      }
    }
  }

  /** `{tid: ids[tuple(chain)] for tid, chain in chains.items()}`: one
      assigned id for every transcript that has a chain. */
  function IsoMap(chains: map<string, Chain>, ids: map<Chain, string>): (m: map<string, string>)
    requires chains.Values <= ids.Keys
    ensures m.Keys == chains.Keys
    ensures forall t :: t in m ==> m[t] in ids.Values
  {
    map t | t in chains :: ids[chains[t]]
  }

  /** `column.map(m)` for one cell: the value for a key of `m`, a missing
      value for any other. */
  function Lookup(m: map<string, string>, k: string): Option<string> {
    if k in m then Some(m[k]) else None
  }

  function TagRows<R>(rows: seq<R>, key: R -> string, m: map<string, string>): (r: seq<Tagged<R>>)
    ensures |r| == |rows|
    ensures forall i :: 0 <= i < |rows| ==> r[i].row == rows[i] && r[i].universalId == Lookup(m, key(rows[i]))
  {
    seq(|rows|, i requires 0 <= i < |rows| => Tagged(Lookup(m, key(rows[i])), rows[i]))
  }

  /** The universal id of transcript `t`: the id of its chain, missing when
      it has no chain. */
  function IdOf(chains: map<string, Chain>, ids: map<Chain, string>, t: string): (r: Option<string>)
    requires chains.Values <= ids.Keys
    ensures r.Some? <==> t in chains
    ensures r.Some? ==> r.value == ids[chains[t]]
  {
    Lookup(IsoMap(chains, ids), t)
  }

  /** Steps 5 and 6 for one sample: classification and junction rows get
      `universal_id` from their `isoform`, expression rows (when present)
      from their first column; no row is otherwise changed, reordered,
      added or removed. */
  function TagSample(t: SampleTables, chains: map<string, Chain>, ids: map<Chain, string>): (r: TaggedTables)
    requires chains.Values <= ids.Keys
    ensures |r.classification| == |t.classification| && |r.junctions| == |t.junctions|
    ensures r.gtf == t.gtf
    ensures r.expression.Some? <==> t.expression.Some?
    ensures r.expression.Some? ==> |r.expression.value| == |t.expression.value|
  {
    var isoMap := IsoMap(chains, ids);
    TaggedTables(
      TagRows(t.classification, (c: ClassRow) => c.isoform, isoMap),
      TagRows(t.junctions, (j: JunctionRow) => j.isoform, isoMap),
      t.gtf,
      match t.expression
      case None => None
      case Some(e) => Some(TagRows(e, (x: ExprRow) => x.id, isoMap)))
  }

  /** What tagging does to each row: the row is kept as it was, and its
      `universal_id` is the id of its transcript's chain, missing when the
      transcript has none. */
  lemma TagSampleRows(t: SampleTables, chains: map<string, Chain>, ids: map<Chain, string>)
    requires chains.Values <= ids.Keys
    ensures var r := TagSample(t, chains, ids);
      && |r.classification| == |t.classification|
      && (forall i :: 0 <= i < |t.classification| ==>
            r.classification[i].row == t.classification[i] &&
            r.classification[i].universalId == IdOf(chains, ids, t.classification[i].isoform))
    ensures var r := TagSample(t, chains, ids);
      && |r.junctions| == |t.junctions|
      && (forall i :: 0 <= i < |t.junctions| ==>
            r.junctions[i].row == t.junctions[i] &&
            r.junctions[i].universalId == IdOf(chains, ids, t.junctions[i].isoform))
    ensures TagSample(t, chains, ids).gtf == t.gtf
    ensures var r := TagSample(t, chains, ids);
      && (r.expression.Some? <==> t.expression.Some?)
      && (r.expression.Some? ==> |r.expression.value| == |t.expression.value|)
      && (r.expression.Some? ==> forall i :: 0 <= i < |t.expression.value| ==>
            r.expression.value[i].row == t.expression.value[i] &&
            r.expression.value[i].universalId == IdOf(chains, ids, t.expression.value[i].id))
  {
  }

  /** Two transcripts, of the same sample or of different ones, get the same
      universal id exactly when their junction chains are equal. */
  lemma SameIdIffSameChain(ids: map<Chain, string>, c1: map<string, Chain>, t1: string, c2: map<string, Chain>, t2: string)
    requires Injective(ids) && c1.Values <= ids.Keys && c2.Values <= ids.Keys
    requires t1 in c1 && t2 in c2
    ensures IdOf(c1, ids, t1) == IdOf(c2, ids, t2) <==> c1[t1] == c2[t2]
  {
    var a, b := c1[t1], c2[t2];
    assert a in ids && b in ids;
    if ids[a] == ids[b] {
      assert a == b;
    }
  }

  /** Why standardisation stops. */
  datatype StandardizeError =
    | MissingSample(name: string)   // KeyError: the sample has no tables
    | UnquotedId(sample: string)    // IndexError in `get_transcript_id`
    | ColumnExists(sample: string)  // ValueError: `universal_id` inserted twice
    | CountMismatch                 // ValueError: GTF files and samples differ in number

  /** Visiting `samples[i]` in the tagging loop raises: its tables are
      missing, or it was visited before and its expression table already has
      a `universal_id` column. */
  ghost predicate TagFails(samples: seq<string>, data: map<string, SampleTables>, i: nat)
    requires i < |samples|
  {
    samples[i] !in data || (samples[i] in samples[..i] && data[samples[i]].expression.Some?)
  }

  /** `samples[i]` is where the tagging loop raises. */
  ghost predicate FirstTagFailure(samples: seq<string>, data: map<string, SampleTables>, i: nat) {
    i < |samples| && TagFails(samples, data, i) && forall j :: 0 <= j < i ==> !TagFails(samples, data, j)
  }

  function TagError(samples: seq<string>, data: map<string, SampleTables>, i: nat): StandardizeError
    requires i < |samples|
  {
    if samples[i] !in data then MissingSample(samples[i]) else ColumnExists(samples[i])
  }

  /** Every sample in `out` has its tables tagged through its own chains. */
  ghost predicate TaggedAs(data: map<string, SampleTables>, sc: map<string, Dict<string, Chain>>, ids: map<Chain, string>, out: map<string, TaggedTables>) {
    forall s :: s in out ==> s in data && s in sc && sc[s].entries.Values <= ids.Keys && out[s] == TagSample(data[s], sc[s].entries, ids)
  }

  /** Steps 5 and 6: the loop over `samples` that writes the tagged tables
      back into the data. Visiting a sample twice rewrites the same tables,
      except that the second `insert` of `universal_id` raises. */
  method TagAll(samples: seq<string>, data: map<string, SampleTables>, sc: map<string, Dict<string, Chain>>, ids: map<Chain, string>)
    returns (r: Result<map<string, TaggedTables>, StandardizeError>)
    requires forall s :: s in samples ==> s in sc
    requires forall s :: s in sc ==> sc[s].entries.Values <= ids.Keys
    ensures r.Err? <==> exists i :: 0 <= i < |samples| && TagFails(samples, data, i)
    ensures r.Err? ==> exists i :: FirstTagFailure(samples, data, i) && r.error == TagError(samples, data, i)
    ensures r.Ok? ==> forall s :: s in r.value <==> s in samples
    ensures r.Ok? ==> TaggedAs(data, sc, ids, r.value)
  {
    var out: map<string, TaggedTables> := map[];
    for i := 0 to |samples|
      invariant forall j :: 0 <= j < i ==> !TagFails(samples, data, j)
      invariant forall s :: s in out <==> s in samples[..i]
      invariant TaggedAs(data, sc, ids, out)
    {
      var s := samples[i];
      assert samples[..i + 1] == samples[..i] + [s];
      if s !in data {
        assert FirstTagFailure(samples, data, i);
        return Err(MissingSample(s));
      }
      if s in out && data[s].expression.Some? {
        assert FirstTagFailure(samples, data, i);
        return Err(ColumnExists(s));
      }
      out := out[s := TagSample(data[s], sc[s].entries, ids)];
    }
    assert samples[..|samples|] == samples;
    r := Ok(out);
  }

  /** What `standardize_isoforms_cross_sample` computes: the chains of every
      sample, the chain ids, and the tagged tables of every listed sample. */
  datatype Standardized = Standardized(
    chains: Dict<string, Dict<string, Chain>>,
    ids: map<Chain, string>,
    tables: map<string, TaggedTables>)

  /** The registry part of a successful run: `ids` numbers exactly the
      chains of all samples, one distinct id each, `<prefix>1` to
      `<prefix>N`, and every listed sample's tables are tagged through it. */
  ghost predicate Registered(samples: seq<string>, data: map<string, SampleTables>, out: Standardized, prefix: string) {
    && out.chains.Valid()
    && (forall s :: s in out.chains.entries ==> out.chains.entries[s].Valid())
    && out.ids.Keys == AllChains(out.chains)
    && Injective(out.ids)
    && (forall c :: c in out.ids ==> exists n :: 1 <= n <= |out.ids| && out.ids[c] == IdName(prefix, n))
    && (forall n :: 1 <= n <= |out.ids| ==> IdName(prefix, n) in out.ids.Values)
    && (forall s :: s in out.tables <==> s in samples)
    && TaggedAs(data, out.chains.entries, out.ids, out.tables)
  }

  /** Every chain of every sample has been given an id. */
  lemma ChainsCovered(sc: Dict<string, Dict<string, Chain>>, all: set<Chain>, ids: map<Chain, string>)
    requires forall c :: c in all <==> exists s, t :: s in sc.entries && t in sc.entries[s].entries && sc.entries[s].entries[t] == c
    requires ids.Keys == all
    ensures forall s :: s in sc.entries ==> sc.entries[s].entries.Values <= ids.Keys
  {
    forall s | s in sc.entries
      ensures sc.entries[s].entries.Values <= ids.Keys
    {
      forall c | c in sc.entries[s].entries.Values
        ensures c in all
      {
        var t :| t in sc.entries[s].entries && sc.entries[s].entries[t] == c;
      }
    }
  }

  /** The outcome of steps 3 to 6 meets `Registered`. */
  lemma RegisteredIntro(samples: seq<string>, data: map<string, SampleTables>, sc: Dict<string, Dict<string, Chain>>,
                        ids: map<Chain, string>, tables: map<string, TaggedTables>, prefix: string)
    requires sc.Valid() && (forall s :: s in sc.entries ==> sc.entries[s].Valid())
    requires ids.Keys == AllChains(sc) && Injective(ids)
    requires forall c :: c in ids ==> exists n :: 1 <= n <= |ids| && ids[c] == IdName(prefix, n)
    requires forall n :: 1 <= n <= |ids| ==> IdName(prefix, n) in ids.Values
    requires forall s :: s in tables <==> s in samples
    requires TaggedAs(data, sc.entries, ids, tables)
    ensures Registered(samples, data, Standardized(sc, ids, tables), prefix)
  {
  }

  /** Steps 3 to 6 once the chains of the samples are known. */
  method Register(samples: seq<string>, data: map<string, SampleTables>, sc: Dict<string, Dict<string, Chain>>, prefix: string)
    returns (r: Result<Standardized, StandardizeError>)
    requires sc.Valid() && (forall s :: s in sc.entries ==> sc.entries[s].Valid())
    requires forall s :: s in samples ==> s in sc.entries
    ensures r.Err? <==> exists i :: 0 <= i < |samples| && TagFails(samples, data, i)
    ensures r.Err? ==> exists i :: FirstTagFailure(samples, data, i) && r.error == TagError(samples, data, i)
    ensures r.Ok? ==> r.value.chains == sc && Registered(samples, data, r.value, prefix)
  {
    var all := CollectChains(sc);
    var ids := AssignIds(all, prefix);
    ChainsCovered(sc, all, ids);
    var tagged := TagAll(samples, data, sc.entries, ids);
    if tagged.Err? {
      return Err(tagged.error);
    }
    RegisteredIntro(samples, data, sc, ids, tagged.value, prefix);
    r := Ok(Standardized(sc, ids, tagged.value));
  }

}
