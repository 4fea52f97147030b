/** The older `standardize_isoforms_cross_sample`, which takes the GTF files
    as a separate list paired with the samples by position and names the ids
    `iso1`, `iso2`, .... */
module UniversalIdFiles {
  import opened Wrappers
  import opened Text
  import opened Dicts
  import opened Tables
  import opened JunctionChain
  import opened IdRegistry

  const Prefix := "iso"

  /** `gtfFiles[i]` is where the chain-extraction loop raises. */
  ghost predicate FirstQuoteFailure(gtfFiles: seq<seq<GtfRow>>, i: nat) {
    i < |gtfFiles| && HasExonWithoutQuote(gtfFiles[i]) &&
    forall j :: 0 <= j < i ==> !HasExonWithoutQuote(gtfFiles[j])
  }

  /** Sample `s` holds the chains of the GTF file at its last position. */
  ghost predicate PairedLast(samples: seq<string>, gtfFiles: seq<seq<GtfRow>>, s: string, chains: Dict<string, Chain>) {
    exists i :: 0 <= i < |samples| && i < |gtfFiles| && samples[i] == s && LastAt(samples, i) && ChainsFor(gtfFiles[i], chains)
  }

  /** The chains stored so far: each sample's entry came from the GTF file at
      its last position among the first `n` samples. */
  ghost predicate PairedUpTo(samples: seq<string>, gtfFiles: seq<seq<GtfRow>>, n: nat, sc: map<string, Dict<string, Chain>>, from: map<string, nat>) {
    forall s :: s in sc ==>
      && s in from && from[s] < n && n <= |samples| && n <= |gtfFiles| && samples[from[s]] == s
      && ChainsFor(gtfFiles[from[s]], sc[s])
      && (forall k :: from[s] < k < n ==> samples[k] != s)
  }

  lemma PairedStep(samples: seq<string>, gtfFiles: seq<seq<GtfRow>>, i: nat, sc: map<string, Dict<string, Chain>>, from: map<string, nat>, chains: Dict<string, Chain>)
    requires i < |samples| && i < |gtfFiles|
    requires PairedUpTo(samples, gtfFiles, i, sc, from) && ChainsFor(gtfFiles[i], chains)
    ensures PairedUpTo(samples, gtfFiles, i + 1, sc[samples[i] := chains], from[samples[i] := i])
  {
    var sc', from' := sc[samples[i] := chains], from[samples[i] := i];
    forall s | s in sc'
      ensures s in from' && from'[s] < i + 1 && samples[from'[s]] == s
      ensures ChainsFor(gtfFiles[from'[s]], sc'[s])
      ensures forall k :: from'[s] < k < i + 1 ==> samples[k] != s
    {
      if s != samples[i] {
        assert s in sc && sc'[s] == sc[s] && from'[s] == from[s];
      }
    }
  }

  lemma PairedDone(samples: seq<string>, gtfFiles: seq<seq<GtfRow>>, sc: map<string, Dict<string, Chain>>, from: map<string, nat>)
    requires PairedUpTo(samples, gtfFiles, |samples|, sc, from)
    ensures forall s :: s in sc ==> PairedLast(samples, gtfFiles, s, sc[s])
  {
    forall s | s in sc ensures PairedLast(samples, gtfFiles, s, sc[s]) {
      assert LastAt(samples, from[s]);
    }
  }

  /** Steps 1 and 2: `for sample, gtf_file in zip(samples, gtf_files):
      sample_chains[sample] = extract_junction_chain_from_gtf(gtf_file)`.
      A sample listed twice keeps the chains of its last GTF file. */
  method ExtractZipped(samples: seq<string>, gtfFiles: seq<seq<GtfRow>>)
    returns (r: Result<Dict<string, Dict<string, Chain>>, StandardizeError>)
    requires |samples| == |gtfFiles|
    ensures r.Err? <==> exists i :: 0 <= i < |gtfFiles| && HasExonWithoutQuote(gtfFiles[i])
    ensures r.Err? ==> exists i :: 0 <= i < |samples| && FirstQuoteFailure(gtfFiles, i) && r.error == UnquotedId(samples[i])
    ensures r.Ok? ==> r.value.Valid() && forall s :: s in r.value.entries <==> s in samples
    ensures r.Ok? ==> forall s :: s in r.value.entries ==> PairedLast(samples, gtfFiles, s, r.value.entries[s])
  {
    var sc: Dict<string, Dict<string, Chain>> := Empty();
    ghost var from: map<string, nat> := map[];
    for i := 0 to |samples|
      invariant forall j :: 0 <= j < i ==> !HasExonWithoutQuote(gtfFiles[j])
      invariant sc.Valid() && forall s :: s in sc.entries <==> s in samples[..i]
      invariant PairedUpTo(samples, gtfFiles, i, sc.entries, from)
    {
      var s := samples[i];
      assert samples[..i + 1] == samples[..i] + [s];
      var chains := ExtractChains(gtfFiles[i]);
      if chains.Err? {
        assert FirstQuoteFailure(gtfFiles, i);
        return Err(UnquotedId(s));
      }
      PairedStep(samples, gtfFiles, i, sc.entries, from, chains.value);
      sc := sc.Put(s, chains.value);
      from := from[s := i];
    }
    assert samples[..|samples|] == samples;
    PairedDone(samples, gtfFiles, sc.entries, from);
    r := Ok(sc);
  }

  /** `standardize_isoforms_cross_sample(parsed_obj, gtf_files)`: raises when
      the counts differ, then extracts the chains of the GTF files paired
      with the samples, numbers the distinct chains `iso1` .. `isoN`, and
      tags every listed sample's tables. */
  method Standardize(samples: seq<string>, gtfFiles: seq<seq<GtfRow>>, data: map<string, SampleTables>)
    returns (r: Result<Standardized, StandardizeError>)
    ensures r.Err? && r.error == CountMismatch <==> |samples| != |gtfFiles|
    ensures |samples| == |gtfFiles| ==> (r.Err? <==>
      (exists i :: 0 <= i < |gtfFiles| && HasExonWithoutQuote(gtfFiles[i])) ||
      (exists i :: 0 <= i < |samples| && TagFails(samples, data, i)))
    ensures |samples| == |gtfFiles| && (exists i :: 0 <= i < |gtfFiles| && HasExonWithoutQuote(gtfFiles[i])) ==>
      r.Err? && exists i :: 0 <= i < |samples| && FirstQuoteFailure(gtfFiles, i) && r.error == UnquotedId(samples[i])
    ensures |samples| == |gtfFiles| && r.Err? && (forall i :: 0 <= i < |gtfFiles| ==> !HasExonWithoutQuote(gtfFiles[i])) ==>
      exists i :: 0 <= i < |samples| && FirstTagFailure(samples, data, i) && r.error == TagError(samples, data, i)
    ensures r.Ok? ==> Registered(samples, data, r.value, Prefix)
    ensures r.Ok? ==> forall s :: s in r.value.chains.entries <==> s in samples
    ensures r.Ok? ==> forall s :: s in r.value.chains.entries ==> PairedLast(samples, gtfFiles, s, r.value.chains.entries[s])
  {
    if |samples| != |gtfFiles| {
      return Err(CountMismatch);
    }
    var sc := ExtractZipped(samples, gtfFiles);
    if sc.Err? {
      return Err(sc.error);
    }
    r := Register(samples, data, sc.value, Prefix);
  }
}
