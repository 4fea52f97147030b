/** The older input parser: it validates the manifest's columns, checks that
    every named file exists, and records each sample's file paths under its
    sample name. Whether a path exists is a parameter (`existing`); the
    per-sample MD5 hash is not part of this model. */
module Manifest {
  import opened Wrappers
  import opened Text
  import opened Dicts
  import opened Paths
  import opened ParseInputs

  /** The paths stored for one sample. */
  datatype SampleEntry = SampleEntry(classificationPath: string, junctionsPath: string, expressionPath: Option<string>)

  datatype ManifestError =
    | TooFewColumns                              // the `ValueError` raised for fewer than 2 columns
    | ColumnCountMismatch(expected: nat, got: nat) // assigning 3 column names to a wider table
    | FileNotFound(path: string)
    | NaNFile                                    // `os.path.exists(nan)` raises `TypeError`

  /** `get_sample_name`: the stem of the last path component, with every
      "_classification" removed, but only when the stem ends with it. */
  function GetSampleName(classFile: string): (r: string)
    ensures |r| <= |Stem(PathName(classFile))|
  {
    var base := Stem(PathName(classFile));
    if EndsWith(base, Suffix) then RemoveAll(base, Suffix) else base
  }

  lemma {:induction false} EndsWithSuffix(name: string, suffix: string)
    ensures EndsWith(name + suffix, suffix)
  {
    assert (name + suffix)[|name|..] == suffix;
  }

  /** The usual SQANTI3 file `<dir>/<name>_classification.txt` yields `name`,
      as in the newer parser. */
  lemma {:induction false} GetSampleNameOfFile(dir: string, name: string)
    requires name != "" && '/' !in name && !Contains(name, Suffix)
    ensures GetSampleName(dir + "/" + (name + Suffix + "." + "txt")) == name
  {
    SuffixFacts();
    assert '/' !in "txt" && '.' !in "txt";
    StemWithoutSuffix(dir, name, Suffix, "txt");
    var base := name + Suffix;
    var file := base + "." + "txt";
    PathNameOfFile(dir, file);
    StemDropsExtension(base, "txt");
    EndsWithSuffix(name, Suffix);
  }

  /** A file whose stem does not end with "_classification" is named by its
      stem, even when the stem contains "_classification" elsewhere. */
  lemma {:induction false} GetSampleNameKeepsStem(dir: string, stem: string, ext: string)
    requires stem != "" && ext != "" && '/' !in stem && '/' !in ext && '.' !in ext
    requires !EndsWith(stem, Suffix)
    ensures GetSampleName(dir + "/" + (stem + "." + ext)) == stem
  {
    var file := stem + "." + ext;
    assert forall k :: 0 <= k < |file| ==> file[k] == '.' || file[k] in stem || file[k] in ext;
    PathNameOfFile(dir, file);
    StemDropsExtension(stem, ext);
  }

  /** `input_df.columns = ["classification", "junctions"] + (["expression"]
      if ... >= 3 else [])`, after the check for fewer than two columns. */
  function ColumnNames(width: nat): (r: Result<seq<string>, ManifestError>)
    ensures r.Err? <==> width < 2 || width > 3
    ensures width < 2 ==> r == Err(TooFewColumns)
    ensures r.Ok? ==> |r.value| == width && r.value[0] == "classification" && r.value[1] == "junctions"
    ensures r.Ok? ==> ("expression" in r.value <==> width == 3)
  {
    if width < 2 then Err(TooFewColumns)
    else
      var names := ["classification", "junctions"] + (if width >= 3 then ["expression"] else []);
      if |names| != width then Err(ColumnCountMismatch(width, |names|)) else Ok(names)
  }

  /** The paths of one row of a two- or three-column manifest. */
  function EntryOf(row: seq<string>): (e: SampleEntry)
    requires 2 <= |row| <= 3
    ensures e.classificationPath == row[0] && e.junctionsPath == row[1]
    ensures e.expressionPath.Some? <==> |row| == 3
    ensures |row| == 3 ==> e.expressionPath == Some(row[2])
  {
    SampleEntry(row[0], row[1], if |row| == 3 then Some(row[2]) else None)
  }

  /** The existence check of one path: a NaN field (read from an empty
      cell) makes `os.path.exists` raise, a path outside `existing` is not
      found. */
  function CheckPath(path: string, existing: set<string>): (r: Option<ManifestError>)
    ensures r.None? <==> !IsNaN(path) && path in existing
    ensures r.Some? ==> r.value == (if IsNaN(path) then NaNFile else FileNotFound(path))
  {
    if IsNaN(path) then Some(NaNFile)
    else if path !in existing then Some(FileNotFound(path))
    else None
  }

  /** The existence checks of one row, in order: classification, junctions,
      then the expression path when the manifest has that column (NaN is
      truthy, so a NaN expression field is checked too). The first failure,
      if any. */
  function RowError(e: SampleEntry, existing: set<string>): (r: Option<ManifestError>)
    ensures r.None? <==>
      && !IsNaN(e.classificationPath) && e.classificationPath in existing
      && !IsNaN(e.junctionsPath) && e.junctionsPath in existing
      && (e.expressionPath.Some? ==> !IsNaN(e.expressionPath.value) && e.expressionPath.value in existing)
    ensures CheckPath(e.classificationPath, existing).Some? ==> r == CheckPath(e.classificationPath, existing)
    ensures CheckPath(e.classificationPath, existing).None? && CheckPath(e.junctionsPath, existing).Some? ==>
      r == CheckPath(e.junctionsPath, existing)
    ensures r.Some? ==> r.value.NaNFile? || (r.value.FileNotFound? && r.value.path !in existing)
  {
    if CheckPath(e.classificationPath, existing).Some? then CheckPath(e.classificationPath, existing)
    else if CheckPath(e.junctionsPath, existing).Some? then CheckPath(e.junctionsPath, existing)
    else match e.expressionPath
      case Some(x) => CheckPath(x, existing)
      case None => None
  }

  /** Row `i` is the first row whose checks fail. */
  predicate FirstFailing(entries: seq<SampleEntry>, existing: set<string>, i: nat) {
    i < |entries| && RowError(entries[i], existing).Some? &&
    forall j :: 0 <= j < i ==> RowError(entries[j], existing).None?
  }

  /** The row loop: check the row's files, then store its paths under its
      sample name, a later row overwriting an earlier one. */
  method CheckAndStore(names: seq<string>, entries: seq<SampleEntry>, existing: set<string>)
    returns (r: Result<Dict<string, SampleEntry>, ManifestError>)
    requires |names| == |entries|
    ensures r.Err? <==> exists i :: 0 <= i < |entries| && RowError(entries[i], existing).Some?
    ensures r.Err? ==>
      exists i :: 0 <= i < |entries| && FirstFailing(entries, existing, i) && r.error == RowError(entries[i], existing).value
    ensures r.Ok? ==> r.value.Valid() && r.value.keys == Unique(names)
    ensures r.Ok? ==> AssignedFrom(names, entries, |names|, r.value.entries)
  {
    var info: Dict<string, SampleEntry> := Empty();
    for i := 0 to |names|
      invariant forall j :: 0 <= j < i ==> RowError(entries[j], existing).None?
      invariant info.Valid()
      invariant info.keys == Unique(names[..i])
      invariant AssignedFrom(names, entries, i, info.entries)
    {
      var failure := RowError(entries[i], existing);
      if failure.Some? {
        assert FirstFailing(entries, existing, i);
        return Err(failure.value);
      }
      PrefixSnoc(names, i);
      UniqueSnoc(names[..i], names[i]);
      AssignedStep(names, entries, i, info.entries);
      info := info.Put(names[i], entries[i]);
    }
    assert names[..|names|] == names;
    r := Ok(info);
  }

  function SampleNames(m: Manifest): (r: seq<string>)
    requires m.Rectangular() && m.width >= 1
    ensures |r| == |m.rows| && forall i :: 0 <= i < |m.rows| ==> r[i] == GetSampleName(m.rows[i][0])
  {
    seq(|m.rows|, i requires 0 <= i < |m.rows| && m.Rectangular() => GetSampleName(m.rows[i][0]))
  }

  function Entries(m: Manifest): (r: seq<SampleEntry>)
    requires m.Rectangular() && 2 <= m.width <= 3
    ensures |r| == |m.rows| && forall i :: 0 <= i < |m.rows| ==> r[i] == EntryOf(m.rows[i])
  {
    seq(|m.rows|, i requires 0 <= i < |m.rows| && m.Rectangular() => EntryOf(m.rows[i]))
  }

  /** The body of `main` up to the summary: column validation, then the row
      loop. A failure names the condition and, for a missing file, the
      path. */
  method LoadManifest(m: Manifest, existing: set<string>) returns (r: Result<Dict<string, SampleEntry>, ManifestError>)
    requires m.Rectangular()
    ensures m.width < 2 ==> r == Err(TooFewColumns)
    ensures m.width > 3 ==> r == Err(ColumnCountMismatch(m.width, 3))
    ensures 2 <= m.width <= 3 ==>
      (r.Err? <==> exists i :: 0 <= i < |m.rows| && RowError(Entries(m)[i], existing).Some?)
    ensures 2 <= m.width <= 3 && r.Err? ==>
      exists i :: 0 <= i < |m.rows| && FirstFailing(Entries(m), existing, i) && r.error == RowError(Entries(m)[i], existing).value
    ensures r.Ok? ==> 2 <= m.width <= 3 && r.value.Valid() && r.value.keys == Unique(SampleNames(m))
    ensures r.Ok? ==> AssignedFrom(SampleNames(m), Entries(m), |m.rows|, r.value.entries)
  {
    var columns := ColumnNames(m.width);
    if columns.Err? {
      return Err(columns.error);
    }
    r := CheckAndStore(SampleNames(m), Entries(m), existing);
  }
}
