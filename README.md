# SQcompare isoform reconciliation, modelled in Dafny

SQcompare compares the long-read transcriptomes of several samples. Each
sample arrives as SQANTI3 output: a classification table, a junction table,
a GTF gene model and optionally an expression table. The pipeline runs in
these stages, each modelled here on the tables as sequences of records:

- **Input manifests.** The pipeline reads a manifest of file paths per
  sample and names each sample after its classification file.
  - Newer parser: module `ParseInputs`.
  - Older parser: module `Manifest`. It also checks that each named file
    exists.
- **ISM collapse (optional).** Incomplete-splice-match isoforms are
  collapsed into one survivor per reference transcript: module
  `CollapseIsm`.
- **Junction-chain fingerprint.** Every transcript gets a fingerprint: its
  chromosome followed by the start-sorted `(start, end)` pairs of its exons.
  - Reading the `transcript_id` attribute: module `GtfAttributes`.
  - Building the chain: module `JunctionChain`.
- **Universal ids.** Every distinct fingerprint across all samples gets a
  universal id, written onto the sample's tables.
  - Shared registry: module `IdRegistry`.
  - `isoformN` naming (pickle-driven variant): module `UniversalId`.
  - `isoN` naming (GTF-list variant): module `UniversalIdFiles`.
- **Aggregation.** The per-sample tables are aggregated into one metadata
  row per junction chain and a sample × isoform matrix:
  `GeneralizeIsoforms`.
- **Summary report.** The report's counting part: module `SqCompareSummary`.
  - Per-sample isoform totals.
  - Category histograms.
  - Mono/multi-exon splits.
  - UpSet membership lists.

Helper modules give Python's and pandas' behaviour a precise meaning:

- `Text`: `str.split`, `str.replace` with an empty replacement, and
  dict-key insertion order.
- `Order`: the sorted keys that `groupby` iterates over.
- `Paths`: `Path.name`, `Path.stem` and `os.path.basename`.
- `Decimal`: the decimal numeral in `f"isoform{i+1}"`.
- `Dicts`: a dict that keeps insertion order and lets a later key overwrite
  an earlier one.
- `Tables`: the row types.
- `Wrappers`: `Option` and `Result`.

Where pandas leaves an order open, the contracts leave it open too:

- `sort_values` without a stable sort kind;
- `set` iteration order.

Tables are sequences of records and values are unbounded integers or reals.
A failure the program raises is an `Err` result naming the condition.

Two modelling notes:

- **FSM literal.** The collapse compares categories with the literal
  `"full_splice_match"`, exactly as written in
  `scripts/collapse_ism.py:28-29`. The summary report lists SQANTI3's name
  as `"full-splice_match"`. Both literals are modelled as the code spells
  them.
- **Key column.** The summary reads its matrix by a key column named
  `unique_jc` (`scripts/sq_compare_summary.py:83`). The aggregation writes
  its matrix with the key column `universal_id`
  (`scripts/generalize_isoforms.py:76`). The summary is modelled on its own
  terms: a matrix whose first column is not `unique_jc` makes the
  statistics loop fail.

## Model

| member | source | states |
|---|---|---|
| CollapseIsm.Rank | scripts/collapse_ism.py:35-38 | the rank of a subcategory is its position in the priority list, and the list's length exactly when it is not listed |
| CollapseIsm.Group | scripts/collapse_ism.py:14 | a group holds exactly the rows with that `associated_transcript` |
| CollapseIsm.AssociatedTranscripts | scripts/collapse_ism.py:14 | the groups visited are exactly the `associated_transcript` values of the table |
| CollapseIsm.Isoforms | scripts/collapse_ism.py:16 | a group's isoform list has one entry per row, in row order |
| CollapseIsm.FsmRows | scripts/collapse_ism.py:29 | exactly the group's rows whose category is `full_splice_match` |
| CollapseIsm.LeastRanked | scripts/collapse_ism.py:36-40 | the first row after the rank sort has a rank no greater than any candidate's |
| CollapseIsm.PickSurvivor | scripts/collapse_ism.py:28-54 | the survivor is a group member. If the group has a full splice match, the survivor is one, of least FSM rank among them. Otherwise it has the least fragment rank over all members. Ties are left open |
| CollapseIsm.Removed | scripts/collapse_ism.py:42 | the removed list holds exactly the group's isoforms other than the survivor, and never the survivor |
| CollapseIsm.PassStep | scripts/collapse_ism.py:15-21 | adding a "novel" or single-member group to `kept` preserves the loop invariant |
| CollapseIsm.CollapseStep | scripts/collapse_ism.py:42-45 | recording a survivor, its removed list and the kept/dropped extensions preserves the loop invariant |
| CollapseIsm.CollapseGroups | scripts/collapse_ism.py:9-58 | the group loop. `kept` = the pass-through isoforms plus one survivor per collapsible group. `dropped` = the other members of those groups. `collapsed_dict` maps each survivor to exactly its group minus itself |
| CollapseIsm.NovelPassesThrough | scripts/collapse_ism.py:15-17 | every "novel" isoform is kept and never dropped |
| CollapseIsm.SingletonPassesThrough | scripts/collapse_ism.py:19-21 | the member of a one-row group is kept, never dropped, and gets no `collapsed_dict` entry |
| CollapseIsm.NotDropped | scripts/collapse_ism.py:15-21 | no pass-through isoform is dropped |
| CollapseIsm.KeptDroppedDisjoint | scripts/collapse_ism.py:44-45 | with unique isoform ids, `kept` and `dropped` are disjoint |
| CollapseIsm.DroppedNotKept | scripts/collapse_ism.py:42-45 | a removed isoform is not kept |
| CollapseIsm.SurvivorNotRemoved | scripts/collapse_ism.py:42-43 | no survivor appears in any removed list, its own included |
| CollapseIsm.RemovedListsDisjoint | scripts/collapse_ism.py:42-43 | removed lists of different groups share no isoform |
| CollapseIsm.RecordOk | scripts/collapse_ism.py:43 | the finished `collapsed_dict` is a valid collapse record: lists pairwise disjoint, no survivor listed |
| CollapseIsm.KeepIsoforms | scripts/collapse_ism.py:61 | the output classification is exactly the rows whose isoform is kept |
| CollapseIsm.DropJunctions | scripts/collapse_ism.py:64 | the output junctions are exactly the rows whose isoform is not dropped |
| CollapseIsm.FindOwner | scripts/collapse_ism.py:69 | the `next(...)` search yields the FIRST survivor in insertion order whose list holds the id (no earlier survivor lists it), or the id itself exactly when no list holds it |
| CollapseIsm.SurvivorFor | scripts/collapse_ism.py:69 | the `survivor` of an expression row: a survivor whose list holds the id when some list does, and the id itself when none does |
| CollapseIsm.FindOwnerUnique | scripts/collapse_ism.py:69 | when exactly one survivor lists the id, the search yields that survivor |
| CollapseIsm.SurvivorForOk | scripts/collapse_ism.py:69 | with a valid record, an expression row maps to the survivor listing its id, else to its own id |
| CollapseIsm.SurvivorIs | scripts/collapse_ism.py:69-70 | with a valid record, an id maps to survivor s iff it is s or in s's removed list |
| CollapseIsm.Members | scripts/collapse_ism.py:70 | a survivor group holds exactly the expression rows mapped to that survivor |
| CollapseIsm.SurvivorColumn | scripts/collapse_ism.py:69-70 | the `survivor` column's values are exactly the survivors of the expression rows |
| CollapseIsm.MembersTotal | scripts/collapse_ism.py:70 | a survivor group's summed value is the total over the survivor's and its removed isoforms' rows |
| CollapseIsm.MergedAsWritten | scripts/collapse_ism.py:70 | as written, each merged row carries the first member's original id and the group's sum |
| CollapseIsm.KeepExpression | scripts/collapse_ism.py:72 | exactly the merged rows whose id is kept |
| CollapseIsm.RekeyExpression | scripts/collapse_ism.py:69-72 | as written: a row is in the output iff its id is kept and it is the (first original id, group sum) row of some survivor group |
| CollapseIsm.AsWrittenLosesEvidence | scripts/collapse_ism.py:69-72 | as written, when the table's first expression row is one of a survivor's removed isoforms, no output row carries the survivor's id |
| CollapseIsm.ExampleGroup | scripts/collapse_ism.py:69-70 | in the two-row example, the only survivor key is "A" and both rows fall in its group |
| CollapseIsm.AsWrittenCounterexample | scripts/collapse_ism.py:69-72 | with record A←[B] and rows (B, 5), (A, 10): as written, the output is empty; corrected, it is (A, 15) |
| CollapseIsm.MergedBySurvivor | scripts/collapse_ism.py:70-71 | corrected: each merged row is keyed by its survivor and carries the group's sum |
| CollapseIsm.RekeyBySurvivor | scripts/collapse_ism.py:69-72 | corrected: the output rows are exactly one (survivor, group sum) row per kept survivor that has expression rows |
| CollapseIsm.EvidenceConserved | scripts/collapse_ism.py:69-72 | corrected: a kept survivor with any evidence gets one row carrying the total of itself and its removed isoforms |
| CollapseIsm.CollapseIsm | scripts/collapse_ism.py:8-74 | `collapse_ISM`: under some valid survivor choice, the kept classification rows, the junctions of non-dropped isoforms, the expression re-keyed as written, and the record `{sample: collapsed_dict}` mapping each survivor to its group minus itself |
| CollapseIsm.KeepGtf | scripts/collapse_ism.py:105-107 | the GTF keeps exactly the rows whose `transcript_id "(...)"` capture exists and is a surviving isoform |
| CollapseIsm.SummaryLine | scripts/collapse_ism.py:125 | a summary line begins with the sample and a tab, and holds no newline when no name does |
| CollapseIsm.SummaryLineRoundTrip | scripts/collapse_ism.py:125 | a summary line splits back on tabs and commas into sample, survivor and removed list |
| CollapseIsm.SummaryLinesFrom | scripts/collapse_ism.py:123-125 | lines are written exactly for survivors with a non-empty removed list |
| CollapseIsm.SummaryLinesAppend | scripts/collapse_ism.py:123-125 | the lines follow the record's key order: the lines of a run of keys come before those of any later run |
| CollapseIsm.SummaryLinesSingle | scripts/collapse_ism.py:123-125 | one key writes its own line when its removed list is non-empty and nothing otherwise |
| CollapseIsm.SummaryLines | scripts/collapse_ism.py:122-125 | the summary lines of one collapse record are exactly the lines of its survivors with a non-empty removed list |
| CollapseIsm.SummaryLinesOfChoice | scripts/collapse_ism.py:122-125 | with unique isoform ids, the summary lines are exactly one line per collapsed group with a non-empty removed list: its survivor and the group's other members |
| CollapseIsm.CollapseSample | scripts/collapse_ism.py:92-114 | one sample: the collapsed classification and junctions, the GTF filtered to the kept isoforms, the expression re-keyed as written by the returned record, and that record matching the survivor choice |
| CollapseIsm.CollapseInto | scripts/collapse_ism.py:110-114 | the sample's entry is replaced by its collapse under the returned record (classification, junctions, GTF and expression tables all stated) and nothing else changes |
| CollapseIsm.CollapseSamples | scripts/collapse_ism.py:92-116 | a listed sample missing from `data` fails the loop. Otherwise every listed sample holds a collapse of its tables, unlisted samples are unchanged, and the record bound last is the last sample's, matching the tables stored for it |
| CollapseIsm.CollapseAll | scripts/collapse_ism.py:92-125 | `main`: the stored tables of every sample as in `CollapseSamples`, and the summary is the header followed by exactly the lines of the record bound last, the one that collapsed the last sample. A listed sample missing from `data` fails; with no samples the summary write fails |
| GtfAttributes.FirstContaining | scripts/universal_id.py:29-30 | the first `;`-field containing `transcript_id`, or none when no field contains it |
| GtfAttributes.QuotedField | scripts/universal_id.py:31 | `field.split('"')[1]` is a quote-free id, and fails exactly when the field has no quote |
| GtfAttributes.QuotedPart | scripts/universal_id.py:31 | in a field shaped `before"value"...`, the text between the first two quotes is `value` |
| GtfAttributes.IdInFields | scripts/universal_id.py:29-32 | no id exactly when no field contains `transcript_id`; a found id has no quote |
| GtfAttributes.IdInFieldsFirst | scripts/universal_id.py:29-32 | the id is read from the first matching field only |
| GtfAttributes.TranscriptId | scripts/universal_id.py:28-32 | `get_transcript_id`: a found id never contains a quote |
| GtfAttributes.TranscriptIdBetweenQuotes | scripts/universal_id.py:28-32 | when the first matching field is `before"value"...`, the result is `value` |
| GtfAttributes.QuoteFreeRun | scripts/collapse_ism.py:106 | the `[^"]+` run stops at the first quote or the end |
| GtfAttributes.MatchAt | scripts/collapse_ism.py:106 | a match at a position is a non-empty quote-free value framed by `transcript_id "` and `"` there |
| GtfAttributes.SearchFrom | scripts/collapse_ism.py:106 | the LEFTMOST match at or after a position (no earlier position matches), none exactly when no later position matches |
| GtfAttributes.ExtractTranscriptId | scripts/collapse_ism.py:106 | `str.extract('transcript_id "([^"]+)"')`: the capture of the leftmost match, a non-empty quote-free value; none exactly when nothing matches |
| GtfAttributes.ExtractLeftmost | scripts/collapse_ism.py:106 | an attribute `transcript_id "T1"; orig_transcript_id "T0";` yields `T1`, the leftmost match |
| JunctionChain.ExonRows | scripts/universal_id.py:25 | exactly the rows whose feature is `exon` |
| JunctionChain.TidColumn | scripts/universal_id.py:34 | the `transcript_id` column is `get_transcript_id` of each exon's attribute |
| JunctionChain.RowsOf | scripts/universal_id.py:37 | a transcript's group holds only its exon rows and is non-empty when the id occurs |
| JunctionChain.RowsOfMembers | scripts/universal_id.py:37 | a row is in a transcript's group iff it is an exon row whose id is that transcript |
| JunctionChain.ExonIdIff | scripts/universal_id.py:25-37 | a transcript gets a group iff some exon row carries its id |
| JunctionChain.InsertByStart | scripts/universal_id.py:38 | inserting keeps the rows sorted by start and adds exactly that row |
| JunctionChain.SortByStart | scripts/universal_id.py:38 | `sort_values("start")`: a start-sorted permutation of the group |
| JunctionChain.Pairs | scripts/universal_id.py:41-42 | the flattened `(start, end)` of each row, twice the row count |
| JunctionChain.BuildChain | scripts/universal_id.py:40-42 | the loop yields the chromosome of the first sorted exon followed by the pairs |
| JunctionChain.ChainOf | scripts/universal_id.py:40-42 | the chain of a sorted exon list: 1 + 2 × exons long, the first exon's chromosome, then each exon's start and end at positions 1 + 2i and 2 + 2i |
| JunctionChain.ChainOfCoordinates | scripts/universal_id.py:40-43 | equal chains come from exon lists of equal length with the same first chromosome and the same starts and ends, position by position |
| JunctionChain.GroupChain | scripts/universal_id.py:38-43 | the chain of a group is the chain of some start-sorted permutation of its rows |
| JunctionChain.ChainShape | scripts/universal_id.py:40-42 | a chain has length 1 + 2 × exons, a chromosome head, then coordinates with non-decreasing starts |
| JunctionChain.ChainOfShape | scripts/universal_id.py:40-42 | the same shape facts about the chain of one sorted list |
| JunctionChain.SortedUnique | scripts/universal_id.py:38 | two start-sorted permutations coincide when rows with equal starts are identical |
| JunctionChain.ChainUnique | scripts/universal_id.py:38-43 | the chain does not depend on the unstable sort when rows with equal starts are identical |
| JunctionChain.NoQuoteIff | scripts/universal_id.py:31-34 | an exon whose `transcript_id` field has no quote is what makes `split('"')[1]` raise |
| JunctionChain.ReadTranscriptIds | scripts/universal_id.py:34-37 | the ids read, or the failure when an exon's field has no quote |
| JunctionChain.ChainsByTranscript | scripts/universal_id.py:37-43 | `chains` has exactly one entry per found id, in sorted key order, each the chain of its group |
| JunctionChain.ChainsInOrder | scripts/universal_id.py:37-43 | the loop over given keys fills one chain per key |
| JunctionChain.ExtractChains | scripts/universal_id.py:14-45 | `extract_junction_chain_from_gtf`: fails exactly on an unquoted exon id, else the chains of every exon transcript |
| Decimal.NatToString | scripts/universal_id.py:65 | the decimal numeral of a number: non-empty, digits only |
| Decimal.ParseNatToString | scripts/universal_id.py:65 | the numeral reads back as the number |
| Decimal.NatToStringInjective | scripts/universal_id.py:65 | distinct numbers have distinct numerals |
| Decimal.PrefixedInjective | scripts/universal_id.py:65 | `prefix + str(n)` determines `n` |
| IdRegistry.ListOfSet | scripts/universal_id.py:64 | `list(all_chains_set)`: each chain once, in an order left open |
| IdRegistry.Enumerate | scripts/universal_id.py:65 | the id map's keys are exactly the listed chains |
| IdRegistry.EnumerateLast | scripts/universal_id.py:65 | a chain's id is the one given at its last position |
| IdRegistry.EnumeratePositions | scripts/universal_id.py:65 | the chain at position j gets `prefix` + (j + 1) |
| IdRegistry.EnumerateInjective | scripts/universal_id.py:65 | distinct chains get distinct ids |
| IdRegistry.AssignIds | scripts/universal_id.py:63-65 | the ids are a bijection from the distinct chains onto `prefix1..prefixN` |
| IdRegistry.ChainsOfMembers | scripts/universal_id.py:58-61 | a chain is collected iff some sample's dict holds it |
| IdRegistry.AddChains | scripts/universal_id.py:60-61 | adding a sample's chains adds exactly its dict's values |
| IdRegistry.CollectChains | scripts/universal_id.py:57-61 | `all_chains_set` is exactly the chains of every sample |
| IdRegistry.IdOf | scripts/universal_id.py:70 | `iso_map[tid]` exists iff the transcript has a chain, and is that chain's id |
| IdRegistry.IsoMap | scripts/universal_id.py:70 | `iso_map` has exactly the transcripts that have a chain as keys, each mapped to an id of the registry |
| IdRegistry.TagRows | scripts/universal_id.py:74 | `.map(iso_map)` keeps every row and adds its id, or none when unmapped |
| IdRegistry.TagSample | scripts/universal_id.py:67-87 | tagging keeps the number of classification, junction and expression rows, leaves the GTF rows' content unchanged, and keeps the expression table present iff it was |
| IdRegistry.TagSampleRows | scripts/universal_id.py:67-87 | classification, junction and expression rows keep their order and content and gain their transcript's id; the GTF rows' content is unchanged |
| IdRegistry.SameIdIffSameChain | scripts/universal_id.py:61-70 | across samples, two transcripts get the same universal id iff they have the same chain |
| IdRegistry.TagAll | scripts/universal_id.py:68-87 | the tagging loop fails at the first listed sample that has no tables, or that is listed again with expression (a second `universal_id` insert). Otherwise every listed sample is tagged |
| IdRegistry.Register | scripts/universal_id.py:57-87 | steps 3 to 6: the id bijection over all chains and every listed sample's tagged tables, or the tagging failure |
| UniversalId.ExtractOne | scripts/universal_id.py:55 | one sample's chains, or the failure its lookup or extraction raises |
| UniversalId.ChainsOfDataPut | scripts/universal_id.py:55 | storing a sample's chains keeps every entry the chains of its own GTF |
| UniversalId.ExtractAll | scripts/universal_id.py:53-56 | one chain dict per listed sample, or the first sample whose extraction raises |
| UniversalId.Standardize | scripts/universal_id.py:47-95 | `standardize_isoforms_cross_sample`: `isoform1..isoformN` over the distinct chains and every listed sample tagged, or the first failure |
| UniversalIdFiles.PairedStep | universal_id.py:67-68 | storing the i-th GTF's chains under the i-th sample keeps each entry paired with its last position |
| UniversalIdFiles.PairedDone | universal_id.py:67-68 | after the loop each sample holds the chains of the GTF at its last position |
| UniversalIdFiles.ExtractZipped | universal_id.py:66-68 | the zip loop: the first unquoted GTF fails it; otherwise one dict per sample, paired by position, later duplicates overwriting |
| UniversalIdFiles.Standardize | universal_id.py:56-110 | fails with the count mismatch exactly when the GTF count differs. Otherwise `iso1..isoN` over the distinct chains and every sample tagged, or the first failure |
| Text.Split | scripts/universal_id.py:29 | `str.split`: at least one field, none containing the separator, one field iff the separator is absent |
| Text.Join | scripts/collapse_ism.py:125 | `sep.join(fs)` holds every character of every field, only those and the separator, and the separator when there are two or more fields |
| Text.JoinSplit | scripts/collapse_ism.py:125 | joining the fields of a split gives back the string |
| Text.SplitJoin | scripts/collapse_ism.py:125 | splitting a join of separator-free fields gives back the fields |
| Text.RemoveAll | scripts/parse_sq_inputs.py:40 | `str.replace(pat, "")` never lengthens the string and adds no character: the result's multiset of characters is within the input's |
| Text.RemoveAbsent | scripts/generalize_isoforms.py:26 | removing an absent pattern changes nothing |
| Text.RemoveTrailing | scripts/parse_sq_inputs.py:40 | removing a trailing, non-self-overlapping suffix from a string that does not contain it leaves the string |
| Text.Unique | scripts/parse_sq_inputs.py:51 | the keys of a dict filled from a list: each once, exactly the list's values, in first-insertion order |
| Text.UniqueSnoc | scripts/parse_sq_inputs.py:42 | inserting a new key appends it; an existing key keeps the order |
| Dicts.Put | scripts/parse_sq_inputs.py:42 | `d[k] = v` sets the entry, appends a new key and keeps the order of an existing one |
| Dicts.AssignedStep | scripts/parse_sq_inputs.py:42 | after one more row, each key holds the value of its last row so far |
| Order.Insert | scripts/universal_id.py:37 | inserting into a strictly sorted key list keeps it sorted and adds exactly the key |
| Order.SortedKeys | scripts/universal_id.py:37 | the `groupby` keys: strictly ascending, exactly the distinct values |
| Order.SortedKeysConstant | scripts/collapse_ism.py:69-70 | a column holding a single value has that value as its only `groupby` key |
| Paths.LastIndexOf | parse_sq_inputs.py:11 | the last occurrence of a character, none when absent |
| Paths.PathName | parse_sq_inputs.py:11 | `Path.name` contains no `/` |
| Paths.PathNameOfFile | parse_sq_inputs.py:11 | the name of `dir/file` is `file` |
| Paths.Stem | parse_sq_inputs.py:11 | `Path.stem` is a prefix of the name, the whole name when it has no dot |
| Paths.StemDropsExtension | parse_sq_inputs.py:11 | the stem of `base.ext` is `base` |
| Paths.Basename | scripts/generalize_isoforms.py:26 | `os.path.basename` is a `/`-free suffix of the path, the path itself when it has no `/` |
| ParseInputs.SampleName | scripts/parse_sq_inputs.py:40 | the stem with every `_classification` removed, never longer than the stem |
| ParseInputs.SampleNameOfFile | scripts/parse_sq_inputs.py:40 | `<dir>/<name>_classification.txt` names sample `name` |
| ParseInputs.FilesOf | scripts/parse_sq_inputs.py:34-37 | columns 0 to 2 are the classification, junction and GTF paths; the expression path exists iff the row has more than three fields |
| ParseInputs.Names | scripts/parse_sq_inputs.py:40 | one sample name per row |
| ParseInputs.AllFiles | scripts/parse_sq_inputs.py:33-46 | one file record per row |
| ParseInputs.FirstNaNRow | scripts/parse_sq_inputs.py:32-37 | the `Path(...)` calls of the row loop: finds the first row with a NaN (empty) path field, and none exactly when no row has one |
| ParseInputs.FillSamples | scripts/parse_sq_inputs.py:33-47 | the row loop: keys in first-insertion order, each holding its last row's files |
| ParseInputs.ParseSqanti3Inputs | scripts/parse_sq_inputs.py:28-53 | a table without rows fails the read. A table narrower than three columns fails at its first row: on a NaN field before the missing column, else on the missing column. A NaN path field in any row fails `Path(nan)`. It succeeds exactly when none of these holds, and then `n_samples` is the row count, `samples` the distinct names in first-insertion order and `data` each name's last row |
| ParseInputs.SamplesAreKeys | scripts/parse_sq_inputs.py:51-52 | `samples` lists the keys of `data`, each once |
| ParseInputs.CollisionShrinksData | scripts/parse_sq_inputs.py:31 | two rows with the same sample name make `n_samples` exceed the number of entries |
| Manifest.GetSampleName | parse_sq_inputs.py:9-14 | `get_sample_name` never returns more than the stem |
| Manifest.GetSampleNameOfFile | parse_sq_inputs.py:11-13 | `<dir>/<name>_classification.txt` names sample `name` |
| Manifest.GetSampleNameKeepsStem | parse_sq_inputs.py:11-14 | a stem not ending in `_classification` is returned unchanged, even when it contains it elsewhere |
| Manifest.ColumnNames | parse_sq_inputs.py:46-51 | fewer than two columns raise. Two or three get `classification`, `junctions` and `expression` iff there are three. Wider tables fail the column assignment |
| Manifest.EntryOf | parse_sq_inputs.py:55-57 | the paths of a row; the expression path exists iff the row has three fields |
| Manifest.CheckPath | parse_sq_inputs.py:60-65 | one `os.path.exists` check: a NaN field fails with the `TypeError`, a path not in `existing` is not found, and the check passes exactly otherwise |
| Manifest.RowError | parse_sq_inputs.py:60-65 | the checks run classification, then junctions, then the expression field whenever the column exists (NaN is truthy); the first failure is reported, and there is none exactly when every checked path is a present non-NaN path |
| Manifest.SampleNames | parse_sq_inputs.py:68 | one sample name per row |
| Manifest.Entries | parse_sq_inputs.py:54-57 | one path record per row |
| Manifest.CheckAndStore | parse_sq_inputs.py:54-79 | the row loop fails at the first row with a NaN or missing file, with that row's error. Otherwise keys are in first-insertion order, each holding its last row's paths |
| Manifest.LoadManifest | parse_sq_inputs.py:44-79 | column validation, then the row loop, with each failure named |
| GeneralizeIsoforms.SampleName | scripts/generalize_isoforms.py:26 | the basename with every `.pkl` removed, never longer than the basename |
| GeneralizeIsoforms.SampleNameOfFile | scripts/generalize_isoforms.py:26 | `<dir>/<name>.pkl` names sample `name` |
| GeneralizeIsoforms.Names | scripts/generalize_isoforms.py:26 | one sample name per pickle |
| GeneralizeIsoforms.Labelled | scripts/generalize_isoforms.py:30-31 | a pickle's classification rows, in order, each tagged with the sample name |
| GeneralizeIsoforms.CombinedMembers | scripts/generalize_isoforms.py:39 | a row is in the concatenation iff it is a labelled row of some pickle |
| GeneralizeIsoforms.CombinedOf | scripts/generalize_isoforms.py:39 | `pd.concat`: a row is in the combined table iff it is a labelled classification row of some pickle |
| GeneralizeIsoforms.ExprUpToStep | scripts/generalize_isoforms.py:34-37 | after one more pickle, each name with expression holds the last such pickle's table |
| GeneralizeIsoforms.ExprTables | scripts/generalize_isoforms.py:34-37 | `expr_dict` has a key exactly for the sample names of the pickles that carry expression |
| GeneralizeIsoforms.CollectStep | scripts/generalize_isoforms.py:25-37 | one more pickle appends its labelled rows, and stores its expression when it has one |
| GeneralizeIsoforms.Collect | scripts/generalize_isoforms.py:25-39 | the concatenation of every pickle's labelled rows, and each name's expression from its last pickle that has one |
| GeneralizeIsoforms.ChainValues | scripts/generalize_isoforms.py:44 | the non-missing `junction_chain` values |
| GeneralizeIsoforms.GroupOf | scripts/generalize_isoforms.py:44 | a group holds exactly the rows with that chain |
| GeneralizeIsoforms.GroupHead | scripts/generalize_isoforms.py:46-50 | the group's first row is the first combined row with that chain |
| GeneralizeIsoforms.FirstId | scripts/generalize_isoforms.py:46 | `"first"`: the first non-missing id of the group, missing iff all are |
| GeneralizeIsoforms.MeanLength | scripts/generalize_isoforms.py:51 | the mean length times the group size is the summed length; a group of one length has that length as its mean |
| GeneralizeIsoforms.InfoOf | scripts/generalize_isoforms.py:45-52 | the info row of a group: keyed by its chain, id missing iff every member's is and otherwise the first non-missing id in group order (`"first"`), category and associated transcript from the first row |
| GeneralizeIsoforms.MeanLengthBounds | scripts/generalize_isoforms.py:51 | the mean length lies between the least and the greatest length of the group |
| GeneralizeIsoforms.InfoRows | scripts/generalize_isoforms.py:42-53 | one row per given chain, keyed by it |
| GeneralizeIsoforms.IsoformInfo | scripts/generalize_isoforms.py:42-60 | exactly one row per distinct non-missing chain, in strictly ascending chain order |
| GeneralizeIsoforms.GroupFirstId | scripts/generalize_isoforms.py:43-46 | the group's first non-missing id is that of the earliest row of the chain, in concatenation order, whose id is not missing |
| GeneralizeIsoforms.InfoRowMeaning | scripts/generalize_isoforms.py:43-59 | category, gene, transcript and exon count come from the group's first row. The id is missing iff all are missing; otherwise it is the id of the first row of the chain, in concatenation order, whose id is not missing. The mean length lies within the group's bounds |
| GeneralizeIsoforms.Samples | scripts/generalize_isoforms.py:66 | the sample of each combined row |
| GeneralizeIsoforms.InfoIds | scripts/generalize_isoforms.py:63 | the `universal_id` of each info row, in order |
| GeneralizeIsoforms.TmmOf | scripts/generalize_isoforms.py:69 | the TMM of a row carrying the id, or 0 when none does |
| GeneralizeIsoforms.ExprColumn | scripts/generalize_isoforms.py:69 | `reindex(isoform_ids).fillna(0)`: one cell per id, that id's TMM or 0 |
| GeneralizeIsoforms.ExprColumnDistinct | scripts/generalize_isoforms.py:69 | with distinct ids the cell is the TMM of the row with that id |
| GeneralizeIsoforms.PresenceColumn | scripts/generalize_isoforms.py:73-74 | one 0/1 cell per id, 1 iff the sample has a classification row with that id |
| GeneralizeIsoforms.ColumnFor | scripts/generalize_isoforms.py:67-74 | a sample with expression gets, per id, the TMM of an expression row with that id, or 0 exactly when no row has it; one without gets 1 for an id iff it has a classification row with that id, else 0 |
| GeneralizeIsoforms.BuildColumns | scripts/generalize_isoforms.py:66-74 | the column loop fails at the first expression sample whose ids repeat (`reindex` on repeated labels raises). Otherwise one column per sample, in order |
| GeneralizeIsoforms.BuildMatrix | scripts/generalize_isoforms.py:63-76 | rows keyed by the info ids in info order, one column per sample in order of first appearance |
| GeneralizeIsoforms.Generalize | scripts/generalize_isoforms.py:21-76 | `main`'s aggregation: an empty pickle list fails the concatenation. Otherwise the info rows and the matrix of the combined rows, or the first reindex failure |
| SqCompareSummary.ZipMap | scripts/sq_compare_summary.py:33 | `dict(zip(ks, vs))`: keys exactly the names, values among the labels |
| SqCompareSummary.ZipMapAt | scripts/sq_compare_summary.py:33 | with distinct names, name i maps to label i |
| SqCompareSummary.ZipMapInjective | scripts/sq_compare_summary.py:33 | with distinct names and labels, the map is one-to-one |
| SqCompareSummary.CategoryNames | scripts/sq_compare_summary.py:22-31 | nine raw names and nine labels, each list distinct and no label a raw name |
| SqCompareSummary.CatMapAt | scripts/sq_compare_summary.py:33 | `cat_map`'s keys are the raw names, raw name i mapping to label i |
| SqCompareSummary.CatMapPairs | scripts/sq_compare_summary.py:22-33 | `cat_map` pairs the nine raw names one-to-one with the nine labels, position by position |
| SqCompareSummary.PresentKeys | scripts/sq_compare_summary.py:83 | the keys whose cell in the sample's column is positive |
| SqCompareSummary.PerSample | scripts/sq_compare_summary.py:84 | exactly the info rows whose key is present |
| SqCompareSummary.LabelCount | scripts/sq_compare_summary.py:89 | the rows whose category equals the label, zero iff none does |
| SqCompareSummary.MappedCount | scripts/sq_compare_summary.py:89 | the rows whose mapped category is the label, zero iff none maps to it |
| SqCompareSummary.MapsToLabel | scripts/sq_compare_summary.py:33 | a category maps to label k iff it is raw name k |
| SqCompareSummary.MappedCountIsRawCount | scripts/sq_compare_summary.py:89 | counting by mapped label equals counting by the corresponding raw name |
| SqCompareSummary.CategoryCountsAsWritten | scripts/sq_compare_summary.py:89 | as written, label k counts rows whose category is literally label k |
| SqCompareSummary.CategoryCountsAsWrittenTotal | scripts/sq_compare_summary.py:89-91 | the nine as-written counts add up to the rows whose category is literally a label, at most all rows |
| SqCompareSummary.AsWrittenCountsNothing | scripts/sq_compare_summary.py:89 | as written, rows with SQANTI3 raw names give zero in every label |
| SqCompareSummary.AsWrittenCounterexample | scripts/sq_compare_summary.py:89 | one `full-splice_match` row: as written the FSM count is 0, corrected 1 |
| SqCompareSummary.CategoryCounts | scripts/sq_compare_summary.py:89 | corrected (not used by the statistics loop): label k counts the rows with raw name k |
| SqCompareSummary.CategoryCountsTotal | scripts/sq_compare_summary.py:89-91 | the nine counts add up to the rows with a known category, at most all rows, exactly all when every category is known |
| SqCompareSummary.MonoCount | scripts/sq_compare_summary.py:93 | the rows with exactly one exon, zero iff none |
| SqCompareSummary.MultiCount | scripts/sq_compare_summary.py:93 | the rows with other exon counts, zero iff none |
| SqCompareSummary.MonoMultiSplit | scripts/sq_compare_summary.py:93 | every row is mono- or multi-exon, never both |
| SqCompareSummary.Cell | scripts/sq_compare_summary.py:95 | a count missing from `value_counts` leaves the cell missing; otherwise the cell is the count |
| SqCompareSummary.StatsFor | scripts/sq_compare_summary.py:83-95 | the statistics of one column: its sample name, at most one present isoform per info row, nine category cells (the as-written counts), mono and multi cells adding up to the isoform count |
| SqCompareSummary.StatsMeaning | scripts/sq_compare_summary.py:82-95 | a sample's statistics: the present rows are the info rows whose key has a positive cell; category column k counts the present rows whose category is literally label k (zero for every column when all categories are raw names); the columns add up to at most the present rows; mono/multi cells are missing iff empty and sum to the total |
| SqCompareSummary.StatsUpToStep | scripts/sq_compare_summary.py:82-95 | one more sample extends the statistics of the earlier ones |
| SqCompareSummary.SummaryStats | scripts/sq_compare_summary.py:75-101 | over `samples = columns[1:]`: a missing `unique_jc` column fails the first pass, no samples fails the table read after it, otherwise one record per sample in column order, each the as-written statistics of that column |
| SqCompareSummary.Membership | scripts/sq_compare_summary.py:280 | the samples, in column order, whose value is positive, each once |
| SqCompareSummary.MembershipAgreesWithPresence | scripts/sq_compare_summary.py:280 | a sample is in a row's membership iff the row's cell for it is positive, so the row's key is present for that sample |
| SqCompareSummary.Memberships | scripts/sq_compare_summary.py:275-281 | with fewer than seven samples, one membership per matrix row in row order; none otherwise |

## Left out

- Reading and writing files is not modelled: `pd.read_csv`, pickle load and
  dump, `to_csv`, directory creation and the argument parser. Tables arrive
  as parameters and results are returned.
- `os.path.exists` is not modelled; the set of existing paths is a
  parameter of `Manifest.LoadManifest`.
- `hash_files` (MD5 of the paths) is not modelled; a sample's entry keeps
  its paths only.
- `parse_sq_inputs.py` has a command-line block (lines 37-39) that does not
  parse as Python. Only its functions and the body of `main` are modelled.
- The TMM normalisation (`scripts/tmm_norm.py`, a call into R), the
  orchestration in `sq_compare.py` and all plotting and PDF export are not
  part of this model. This includes the plots of
  `scripts/sq_compare_summary.py` after line 101 and `scripts/export_script.py`.
- The summary module's import-time failure (`matplotlib` is used at line 17
  without being bound) is not modelled.
- The exact universal-id numbering is not modelled: it follows Python's
  `set` iteration order. `IdRegistry.AssignIds` states it only up to a
  bijection onto `prefix1..prefixN`.
- Which of several equally ranked members survives, and the order of
  equal-start exons, are not modelled: pandas' default sort is not stable.
  `CollapseIsm.PickSurvivor` and `JunctionChain.SortByStart` state only
  minimal rank and sortedness. `JunctionChain.ChainUnique` shows the chain
  is still determined when equal-start exons are identical.
- Floating point is not modelled. Expression values are integers in the
  collapse and reals elsewhere, the mean length is an exact real, and
  `astype(int)` of the summary's counts is the identity.
- NaN is modelled only where it matters. A missing `universal_id` or chain
  is `None`, and `groupby` drops missing chains. A pickle without
  expression simply has none.
- CollapseIsm.CollapseAll: models the summary written from the collapse
  record bound last (the last listed sample's), as the code does. It does
  not model a per-sample summary of all samples.
- The older GTF read in `universal_id.py:26-28` is not modelled. Each
  sample's GTF rows are a parameter.
- GeneralizeIsoforms.Generalize: does not model a pickle whose expression
  table lacks the `universal_id`/`TMM` columns (a `KeyError`).
- SqCompareSummary.SummaryStats: assumes distinct column names and a key
  column in first position, as `Matrix.WellFormed` states.
  - `pd.read_csv` renames duplicated headers, so distinct column names are
    what it yields.
  - A `unique_jc` column in another position is not modelled.
- SqCompareSummary.Memberships: requires the key column the statistics loop
  has already read.
- Manifest.LoadManifest: an empty manifest file makes `pd.read_csv` raise;
  the model takes an already-read table with zero rows instead.
- An empty manifest field is read by `pd.read_csv` as NaN, and the model
  writes it as the empty string (`ParseInputs.IsNaN`). The other strings
  pandas also reads as NaN ("NA", "nan", "NULL", ...) are not modelled, and
  neither is a field that pandas reads as a number.
- CollapseIsm.RekeyExpression: states which rows the re-keyed expression
  table holds, not their order.
- The in-place renaming of the stored GTF's columns by
  `extract_junction_chain_from_gtf` (`scripts/universal_id.py:23`) is not
  modelled: tables have no column labels, only rows.

## Findings

| source | as written | input that shows it | evidently intended | confidence | as-written member | corrected member |
|---|---|---|---|---|---|---|
| scripts/collapse_ism.py:69-72 | after grouping by survivor, each merged row keeps the first member's original id, and rows whose id is not kept are dropped | record A←[B], expression rows (B, 5) then (A, 10), kept {A}: the merged row is (B, 15), and B is not kept, so survivor A has no row at all | each survivor's row carries the survivor's id and the summed evidence of its group | not executed | CollapseIsm.AsWrittenCounterexample | CollapseIsm.EvidenceConserved |
| scripts/sq_compare_summary.py:89 | `value_counts()` of the raw `category` column is reindexed by the display labels, so a raw name such as `full-splice_match` never matches a label and every count is 0 | one present row with category `full-splice_match`: the FSM count is 0 | count each raw name under its display label through `cat_map` | not executed | SqCompareSummary.AsWrittenCounterexample | SqCompareSummary.MappedCountIsRawCount |

In both rows the operations of the pipeline follow the code as written:
`CollapseIsm.CollapseIsm` re-keys the expression table with
`RekeyExpression`, and `SqCompareSummary.StatsFor` counts categories with
`CategoryCountsAsWritten`. The corrected definitions
(`CollapseIsm.RekeyBySurvivor`, `SqCompareSummary.CategoryCounts`) stand
beside them with the intended property proved.
