/** `standardize_isoforms_cross_sample` of the pipeline's scripts: the GTF
    of each sample is read from the parsed-input data, and the ids are
    `isoform1`, `isoform2`, .... */
module UniversalId {
  import opened Wrappers
  import opened Dicts
  import opened Tables
  import opened JunctionChain
  import opened IdRegistry

  const Prefix := "isoform"

  /** Reading the chains of sample `s` raises: it has no tables, or one of
      its exon rows has a transcript_id field without a quote. */
  ghost predicate ExtractFails(data: map<string, SampleTables>, s: string) {
    s !in data || HasExonWithoutQuote(data[s].gtf)
  }

  function ExtractError(data: map<string, SampleTables>, s: string): StandardizeError {
    if s !in data then MissingSample(s) else UnquotedId(s)
  }

  /** `samples[i]` is where the chain-extraction loop raises. */
  ghost predicate FirstExtractFailure(samples: seq<string>, data: map<string, SampleTables>, i: nat) {
    i < |samples| && ExtractFails(data, samples[i]) && forall j :: 0 <= j < i ==> !ExtractFails(data, samples[j])
  }

  /** Every entry of `sc` holds the chains of that sample's GTF rows. */
  ghost predicate ChainsOfData(data: map<string, SampleTables>, sc: map<string, Dict<string, Chain>>) {
    forall s :: s in sc ==> s in data && ChainsFor(data[s].gtf, sc[s])
  }

  lemma ChainsOfDataPut(data: map<string, SampleTables>, sc: map<string, Dict<string, Chain>>, s: string, chains: Dict<string, Chain>)
    requires ChainsOfData(data, sc) && s in data && ChainsFor(data[s].gtf, chains)
    ensures ChainsOfData(data, sc[s := chains])
  {
  }

  /** The chains of one sample, or the error its extraction raises. */
  method ExtractOne(data: map<string, SampleTables>, s: string) returns (r: Result<Dict<string, Chain>, StandardizeError>)
    ensures r.Err? <==> ExtractFails(data, s)
    ensures r.Err? ==> r.error == ExtractError(data, s)
    ensures r.Ok? ==> s in data && ChainsFor(data[s].gtf, r.value)
  {
    if s !in data {
      return Err(MissingSample(s));
    }
    var chains := ExtractChains(data[s].gtf);
    if chains.Err? {
      return Err(UnquotedId(s));
    }
    r := Ok(chains.value);
  }

  /** Steps 1 and 2: `sample_chains[sample] =
      extract_junction_chain_from_gtf(data[sample]["gtf"])` for every listed
      sample, in order. */
  method ExtractAll(samples: seq<string>, data: map<string, SampleTables>)
    returns (r: Result<Dict<string, Dict<string, Chain>>, StandardizeError>)
    ensures r.Err? <==> exists i :: 0 <= i < |samples| && ExtractFails(data, samples[i])
    ensures r.Err? ==> exists i :: 0 <= i < |samples| && FirstExtractFailure(samples, data, i) && r.error == ExtractError(data, samples[i])
    ensures r.Ok? ==> r.value.Valid() && forall s :: s in r.value.entries <==> s in samples
    ensures r.Ok? ==> ChainsOfData(data, r.value.entries)
  {
    var sc: Dict<string, Dict<string, Chain>> := Empty();
    for i := 0 to |samples|
      invariant forall j :: 0 <= j < i ==> !ExtractFails(data, samples[j])
      invariant sc.Valid() && forall s :: s in sc.entries <==> s in samples[..i]
      invariant ChainsOfData(data, sc.entries)
    {
      var s := samples[i];
      assert samples[..i + 1] == samples[..i] + [s];
      var chains := ExtractOne(data, s);
      if chains.Err? {
        assert FirstExtractFailure(samples, data, i);
        return Err(chains.error);
      }
      ChainsOfDataPut(data, sc.entries, s, chains.value);
      sc := sc.Put(s, chains.value);
    }
    assert samples[..|samples|] == samples;
    r := Ok(sc);
  }

  /** `standardize_isoforms_cross_sample(pickle_df)`: extracts every listed
      sample's chains, numbers the distinct chains `isoform1` ..
      `isoformN`, and tags every listed sample's tables. The first failure
      of the extraction loop, then of the tagging loop, is reported. */
  method Standardize(samples: seq<string>, data: map<string, SampleTables>)
    returns (r: Result<Standardized, StandardizeError>)
    ensures r.Err? <==>
      (exists i :: 0 <= i < |samples| && ExtractFails(data, samples[i])) ||
      (exists i :: 0 <= i < |samples| && TagFails(samples, data, i))
    ensures (exists i :: 0 <= i < |samples| && ExtractFails(data, samples[i])) ==>
      r.Err? && exists i :: 0 <= i < |samples| && FirstExtractFailure(samples, data, i) && r.error == ExtractError(data, samples[i])
    ensures r.Err? && (forall i :: 0 <= i < |samples| ==> !ExtractFails(data, samples[i])) ==>
      exists i :: 0 <= i < |samples| && FirstTagFailure(samples, data, i) && r.error == TagError(samples, data, i)
    ensures r.Ok? ==> Registered(samples, data, r.value, Prefix)
    ensures r.Ok? ==> forall s :: s in r.value.chains.entries <==> s in samples
    ensures r.Ok? ==> ChainsOfData(data, r.value.chains.entries)
  {
    var sc := ExtractAll(samples, data);
    if sc.Err? {
      return Err(sc.error);
    }
    r := Register(samples, data, sc.value, Prefix);
  }
}
