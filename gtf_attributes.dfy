/** The two ways the pipeline reads the transcript id out of a GTF attribute
    string: the field search of `get_transcript_id` and the regular
    expression `transcript_id "([^"]+)"` of the collapser's GTF filter. */
module GtfAttributes {
  import opened Wrappers
  import opened Text

  const TranscriptIdKey := "transcript_id"

  /** Outcome of `get_transcript_id`: the id, `None` when no field mentions
      transcript_id, or the IndexError raised when that field has no quote. */
  datatype TidResult = Found(id: string) | NoTranscriptField | NoQuote

  /** Index of the first field that contains `pat`. */
  function FirstContaining(fields: seq<string>, pat: string): (r: Option<nat>)
    ensures r.None? <==> forall k :: 0 <= k < |fields| ==> !Contains(fields[k], pat)
    ensures r.Some? ==> r.value < |fields| && Contains(fields[r.value], pat)
    ensures r.Some? ==> forall k :: 0 <= k < r.value ==> !Contains(fields[k], pat)
  {
    if fields == [] then None
    else if Contains(fields[0], pat) then Some(0)
    else match FirstContaining(fields[1..], pat)
      case None => None
      case Some(k) => Some(k + 1)
  }

  /** `get_transcript_id(attr)`: the first `;`-separated field containing
      "transcript_id", split on '"', element 1. */
  function TranscriptId(attr: string): (r: TidResult)
    ensures r.Found? ==> '"' !in r.id
  {
    IdInFields(Split(attr, ';'))
  }

  /** The loop of `get_transcript_id` over the fields. */
  function IdInFields(fields: seq<string>): (r: TidResult)
    ensures r.Found? ==> '"' !in r.id
    ensures r.NoTranscriptField? <==> forall k :: 0 <= k < |fields| ==> !Contains(fields[k], TranscriptIdKey)
  {
    if fields == [] then NoTranscriptField
    else if Contains(fields[0], TranscriptIdKey) then QuotedField(fields[0])
    else IdInFields(fields[1..])
  }

  /** `field.split('"')[1]`, which raises when the field has no quote. */
  function QuotedField(field: string): (r: TidResult)
    ensures r.Found? ==> '"' !in r.id
    ensures !r.NoTranscriptField?
    ensures r.NoQuote? <==> '"' !in field
  {
    var parts := Split(field, '"');
    if |parts| < 2 then NoQuote else Found(parts[1])
  }

  /** Element 1 of splitting on '"' is the text between the first quote and
      the next quote (or the end of the field). */
  lemma QuotedPart(field: string, before: string, value: string, after: string)
    requires field == before + "\"" + value + after
    requires '"' !in before && '"' !in value
    requires after == "" || after[0] == '"'
    ensures |Split(field, '"')| >= 2 && Split(field, '"')[1] == value
  {
    assert field == before + ['"'] + (value + after);
    SplitConcat(before, value + after, '"');
    SplitNoSep(before, '"');
    if after == "" {
      assert value + after == value;
      SplitNoSep(value, '"');
    } else {
      assert value + after == value + ['"'] + after[1..];
      SplitConcat(value, after[1..], '"');
      SplitNoSep(value, '"');
    }
  }

  /** `get_transcript_id` reads the first field that mentions transcript_id,
      and only that one. */
  lemma {:induction false} IdInFieldsFirst(fields: seq<string>)
    ensures FirstContaining(fields, TranscriptIdKey).None? ==> IdInFields(fields) == NoTranscriptField
    ensures FirstContaining(fields, TranscriptIdKey).Some? ==>
      IdInFields(fields) == QuotedField(fields[FirstContaining(fields, TranscriptIdKey).value])
  {
    if fields != [] && !Contains(fields[0], TranscriptIdKey) {
      IdInFieldsFirst(fields[1..]);
    }
  }

  /** The id is the text between the first and the second quote of the first
      field that mentions transcript_id. */
  lemma TranscriptIdBetweenQuotes(attr: string, k: nat, before: string, value: string, after: string)
    requires FirstContaining(Split(attr, ';'), TranscriptIdKey) == Some(k)
    requires Split(attr, ';')[k] == before + "\"" + value + after
    requires '"' !in before && '"' !in value
    requires after == "" || after[0] == '"'
    ensures TranscriptId(attr) == Found(value)
  {
    IdInFieldsFirst(Split(attr, ';'));
    QuotedPart(Split(attr, ';')[k], before, value, after);
  }

  const Tag := "transcript_id \""

  /** Length of the run of non-quote characters at the start of `s`. */
  function QuoteFreeRun(s: string): (n: nat)
    ensures n <= |s| && '"' !in s[..n]
    ensures n < |s| ==> s[n] == '"'
  {
    if s == [] || s[0] == '"' then 0
    else
      var n := QuoteFreeRun(s[1..]);
      assert s[..n + 1] == [s[0]] + s[1..][..n];
      n + 1
  }

  /** The regular expression matched at index `i`: the literal prefix, then
      one or more non-quote characters (captured), then a quote. */
  function MatchAt(s: string, i: nat): (r: Option<string>)
    ensures r.Some? ==> r.value != "" && '"' !in r.value && OccursAt(s, Tag + r.value + "\"", i)
  {
    if OccursAt(s, Tag, i) then
      var rest := s[i + |Tag|..];
      var n := QuoteFreeRun(rest);
      if 0 < n < |rest| then
        assert s[i..i + |Tag| + n + 1] == Tag + rest[..n] + "\"";
        Some(rest[..n])
      else None
    else None
  }

  /** Leftmost match at or after index `i`. */
  function SearchFrom(s: string, i: nat): (r: Option<string>)
    ensures r.None? ==> forall j :: i <= j ==> MatchAt(s, j).None?
    ensures r.Some? ==> exists j :: i <= j && MatchAt(s, j) == r && forall k :: i <= k < j ==> MatchAt(s, k).None?
    decreases |s| + 1 - i
  {
    if i > |s| then None
    else match MatchAt(s, i)
      case Some(t) => Some(t)
      case None => SearchFrom(s, i + 1)
  }

  /** `attr.str.extract('transcript_id "([^"]+)"')`; `None` is the missing
      value pandas produces when the pattern does not match. */
  function ExtractTranscriptId(attr: string): (r: Option<string>)
    ensures r.Some? ==> r.value != "" && '"' !in r.value
    ensures r.Some? ==> exists j :: OccursAt(attr, Tag + r.value + "\"", j)
    ensures r.Some? ==> exists j: nat :: MatchAt(attr, j) == r && forall k :: 0 <= k < j ==> MatchAt(attr, k).None?
    ensures r.None? <==> forall j :: MatchAt(attr, j).None?
  {
    SearchFrom(attr, 0)
  }

  /** The example of an attribute with two matches, as in an attribute
      column carrying both `transcript_id` and `orig_transcript_id`: the
      leftmost match is the one extracted. */
  lemma ExtractLeftmost()
    ensures ExtractTranscriptId(Tag + "T1\"; orig_" + Tag + "T0\";") == Some("T1")
  {
    var rest := "T1\"; orig_" + Tag + "T0\";";
    var s := Tag + rest;
    assert s[..|Tag|] == Tag && s[|Tag|..] == rest;
    assert rest[2..][0] == '"';
    assert rest[1..][1..] == rest[2..];
    assert QuoteFreeRun(rest[1..]) == 1;
    assert QuoteFreeRun(rest) == 2;
    assert rest[..2] == "T1";
    assert OccursAt(s, Tag, 0) && s[0 + |Tag|..] == rest;
    assert MatchAt(s, 0) == Some("T1");
    assert SearchFrom(s, 0) == Some("T1");
    assert s == Tag + "T1\"; orig_" + Tag + "T0\";";
  }
}
