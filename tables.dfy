/** The per-sample tables the pipeline passes between its stages, one
    datatype per row kind. Columns that no stage of the core interprets are
    carried as `columns` and never changed. */
module Tables {
  import opened Wrappers

  /** A row of a sample's classification table. */
  datatype ClassRow = ClassRow(
    isoform: string,
    associatedTranscript: string,
    category: string,
    subcategory: string,
    columns: seq<string>)

  /** A row of a sample's splice-junction table. */
  datatype JunctionRow = JunctionRow(isoform: string, columns: seq<string>)

  /** A row of a sample's expression table: the transcript id (first column),
      the count (second column) and any further columns. */
  datatype ExprRow = ExprRow(id: string, value: int, columns: seq<string>)

  /** A GTF line: the nine tab-separated fields. */
  datatype GtfRow = GtfRow(
    chr: string, source: string, feature: string, start: int, end: int,
    score: string, strand: string, frame: string, attribute: string)

  /** What the parsed-input object holds for one sample. */
  datatype SampleTables = SampleTables(
    classification: seq<ClassRow>,
    junctions: seq<JunctionRow>,
    gtf: seq<GtfRow>,
    expression: Option<seq<ExprRow>>)

  /** A row with a `universal_id` column added; `None` is a missing value
      (the transcript had no junction chain). */
  datatype Tagged<R> = Tagged(universalId: Option<string>, row: R)

  /** A sample's tables after `universal_id` has been added: to the
      classification and junction rows, and as the new first column of the
      expression rows. */
  datatype TaggedTables = TaggedTables(
    classification: seq<Tagged<ClassRow>>,
    junctions: seq<Tagged<JunctionRow>>,
    gtf: seq<GtfRow>,
    expression: Option<seq<Tagged<ExprRow>>>)
}
