/** `parse_sqanti3_inputs` of the pipeline's scripts: one manifest row per
    sample, naming its classification, junction, GTF and (optionally)
    expression files, gathered into a dict keyed by sample name. Reading the
    named files is not part of this model; each sample's record holds the
    paths that would be read. */
module ParseInputs {
  import opened Wrappers
  import opened Text
  import opened Dicts
  import opened Paths

  /** The manifest as `pd.read_csv(..., header=None)` yields it: a table whose
      rows all have `width` fields. An empty field is read as NaN, never as
      an empty string, so the empty string here stands for NaN. */
  datatype Manifest = Manifest(width: nat, rows: seq<seq<string>>)
  {
    predicate Rectangular() {
      forall i :: 0 <= i < |rows| ==> |rows[i]| == width
    }
  }

  /** A field that `pd.read_csv` reads as NaN. */
  predicate IsNaN(cell: string) {
    cell == ""
  }

  /** The files of one sample. */
  datatype SampleFiles = SampleFiles(classification: string, junctions: string, gtf: string, expression: Option<string>)

  /** The returned record: `n_samples`, `samples` and `data`. */
  datatype Parsed = Parsed(nSamples: nat, samples: seq<string>, data: map<string, SampleFiles>)

  datatype ParseError =
    | EmptyInput    // `pd.read_csv` of a file without any row raises `EmptyDataError`
    | MissingColumn // `row[k]` past the last column raises `KeyError`
    | NaNPath       // `Path(nan)` raises `TypeError`

  const Suffix := "_classification"

  /** `Path(class_path).stem.replace("_classification", "")`: the suffix is
      removed wherever it occurs, without checking that the stem ends with it. */
  function SampleName(classPath: string): (r: string)
    ensures |r| <= |Stem(PathName(classPath))|
  {
    RemoveAll(Stem(PathName(classPath)), Suffix)
  }

  /** A file `<dir>/<name><suffix>.<ext>` has stem `<name><suffix>`, and
      removing every `suffix` from it leaves `name`. */
  lemma {:induction false} StemWithoutSuffix(dir: string, name: string, suffix: string, ext: string)
    requires NoSelfOverlap(suffix) && !Contains(name, suffix)
    requires '/' !in name && '/' !in suffix && '/' !in ext && '.' !in ext && ext != ""
    ensures RemoveAll(Stem(PathName(dir + "/" + (name + suffix + "." + ext))), suffix) == name
  {
    var base := name + suffix;
    var file := base + "." + ext;
    assert '/' !in base;
    assert forall k :: 0 <= k < |file| ==> file[k] == '.' || file[k] in base || file[k] in ext;
    PathNameOfFile(dir, file);
    StemDropsExtension(base, ext);
    RemoveTrailing(name, suffix);
  }

  lemma SuffixFacts()
    ensures NoSelfOverlap(Suffix) && '/' !in Suffix
  {
    assert Suffix[1..] == "classification";
  }

  /** The usual SQANTI3 file `<dir>/<name>_classification.txt` yields `name`. */
  lemma {:induction false} SampleNameOfFile(dir: string, name: string)
    requires name != "" && '/' !in name && !Contains(name, Suffix)
    ensures SampleName(dir + "/" + (name + Suffix + "." + "txt")) == name
  {
    SuffixFacts();
    assert '/' !in "txt" && '.' !in "txt";
    StemWithoutSuffix(dir, name, Suffix, "txt");
  }

  /** The record of one row: columns 0 to 2, and column 3 when the table has
      more than three columns. */
  function FilesOf(row: seq<string>, width: nat): (f: SampleFiles)
    requires |row| == width >= 3
    ensures f.classification == row[0] && f.junctions == row[1] && f.gtf == row[2]
    ensures f.expression.Some? <==> width > 3
    ensures width > 3 ==> f.expression == Some(row[3])
  {
    SampleFiles(row[0], row[1], row[2], if width > 3 then Some(row[3]) else None)
  }

  /** The sample name of every row. */
  function Names(m: Manifest): (r: seq<string>)
    requires m.Rectangular() && m.width >= 1
    ensures |r| == |m.rows| && forall i :: 0 <= i < |m.rows| ==> r[i] == SampleName(m.rows[i][0])
  {
    seq(|m.rows|, i requires 0 <= i < |m.rows| && m.Rectangular() => SampleName(m.rows[i][0]))
  }

  /** The record of every row. */
  function AllFiles(m: Manifest): (r: seq<SampleFiles>)
    requires m.Rectangular() && m.width >= 3
    ensures |r| == |m.rows| && forall i :: 0 <= i < |m.rows| ==> r[i] == FilesOf(m.rows[i], m.width)
  {
    seq(|m.rows|, i requires 0 <= i < |m.rows| && m.Rectangular() => FilesOf(m.rows[i], m.width))
  }

  /** A row's record names a path that is NaN, so one of its `Path(...)`
      calls raises. */
  predicate HasNaNPath(f: SampleFiles) {
    IsNaN(f.classification) || IsNaN(f.junctions) || IsNaN(f.gtf) || (f.expression.Some? && IsNaN(f.expression.value))
  }

  /** The `Path(...)` calls of the row loop: the first row whose record
      names a NaN path raises, so the loop stops there. */
  method FirstNaNRow(files: seq<SampleFiles>) returns (found: Option<nat>)
    ensures found.None? <==> forall i :: 0 <= i < |files| ==> !HasNaNPath(files[i])
    ensures found.Some? ==>
      && found.value < |files| && HasNaNPath(files[found.value])
      && forall j :: 0 <= j < found.value ==> !HasNaNPath(files[j])
  {
    for i := 0 to |files|
      invariant forall j :: 0 <= j < i ==> !HasNaNPath(files[j])
    {
      if HasNaNPath(files[i]) {
        return Some(i);
      }
    }
    found := None;
  }

  /** The row loop `samples_info[sample_name] = {...}`, given each row's
      sample name and files (none of them NaN): later rows overwrite earlier
      ones, and keys keep their first-insertion order. */
  method FillSamples(names: seq<string>, files: seq<SampleFiles>) returns (info: Dict<string, SampleFiles>)
    requires |names| == |files|
    ensures info.Valid() && info.keys == Unique(names)
    ensures AssignedFrom(names, files, |names|, info.entries)
  {
    info := Empty();
    for i := 0 to |names|
      invariant info.Valid()
      invariant info.keys == Unique(names[..i])
      invariant AssignedFrom(names, files, i, info.entries)
    {
      PrefixSnoc(names, i);
      UniqueSnoc(names[..i], names[i]);
      AssignedStep(names, files, i, info.entries);
      info := info.Put(names[i], files[i]);
    }
    assert names[..|names|] == names;
  }

  /** `parse_sqanti3_inputs`: a manifest without rows cannot be read. One
      with fewer than three columns fails at the first row: on a NaN path
      before the missing column, else on the missing column. Otherwise the
      first row with a NaN path fails, and without one every row is
      recorded under its sample name, `n_samples` counts the rows, and
      `samples` lists the names in first-insertion order. */
  method ParseSqanti3Inputs(m: Manifest) returns (r: Result<Parsed, ParseError>)
    requires m.Rectangular()
    ensures r.Ok? <==> m.rows != [] && m.width >= 3 && forall i :: 0 <= i < |m.rows| ==> !HasNaNPath(AllFiles(m)[i])
    ensures m.rows == [] ==> r == Err(EmptyInput)
    ensures m.rows != [] && m.width < 3 ==>
      r == if exists k :: 0 <= k < m.width && IsNaN(m.rows[0][k]) then Err(NaNPath) else Err(MissingColumn)
    ensures m.rows != [] && m.width >= 3 && r.Err? ==> r == Err(NaNPath)
    ensures r.Ok? ==> r.value.nSamples == |m.rows|
    ensures r.Ok? ==>
      && r.value.samples == Unique(Names(m))
      && AssignedFrom(Names(m), AllFiles(m), |m.rows|, r.value.data)
  {
    if m.rows == [] {
      return Err(EmptyInput);
    }
    if m.width < 3 {
      if exists k :: 0 <= k < m.width && IsNaN(m.rows[0][k]) {
        return Err(NaNPath);
      }
      return Err(MissingColumn);
    }
    var nan := FirstNaNRow(AllFiles(m));
    if nan.Some? {
      return Err(NaNPath);
    }
    var info := FillSamples(Names(m), AllFiles(m));
    r := Ok(Parsed(|m.rows|, info.keys, info.entries));
  }

  /** The returned `samples` are exactly the keys of `data`, each once. */
  lemma SamplesAreKeys(m: Manifest, p: Parsed)
    requires m.Rectangular() && m.rows != [] && m.width >= 3
    requires p.samples == Unique(Names(m)) && AssignedFrom(Names(m), AllFiles(m), |m.rows|, p.data)
    ensures Distinct(p.samples)
    ensures forall s :: s in p.samples <==> s in p.data
  {
    assert Names(m)[..|m.rows|] == Names(m);
  }

  /** Two rows naming the same sample leave one entry, so `n_samples` then
      exceeds the number of entries. */
  lemma CollisionShrinksData(m: Manifest, p: Parsed, i: nat, j: nat)
    requires m.Rectangular() && m.width >= 3
    requires i < j < |m.rows| && Names(m)[i] == Names(m)[j]
    requires p.nSamples == |m.rows| && p.samples == Unique(Names(m))
    ensures |p.samples| < p.nSamples
  {
    var names := Names(m);
    UniqueShorter(names, i, j);
  }

  lemma {:induction false} UniqueShorter(xs: seq<string>, i: nat, j: nat)
    requires i < j < |xs| && xs[i] == xs[j]
    ensures |Unique(xs)| < |xs|
  {
    var n := |xs| - 1;
    var front := xs[..n];
    assert xs == front + [xs[n]];
    UniqueLength(front);
    if j == n {
      assert xs[n] in front;
      UniqueSnoc(front, xs[n]);
    } else {
      UniqueShorter(front, i, j);
      UniqueSnoc(front, xs[n]);
    }
  }

  lemma {:induction false} UniqueLength(xs: seq<string>)
    ensures |Unique(xs)| <= |xs|
  {
    if xs != [] {
      var n := |xs| - 1;
      assert xs == xs[..n] + [xs[n]];
      UniqueLength(xs[..n]);
      UniqueSnoc(xs[..n], xs[n]);
    }
  }
}
