# voc4cat-tool: a verified model of the vocabulary workbook passes

voc4cat-tool keeps SKOS vocabularies in Excel workbooks and turns them into RDF. This project models its core:

- the row extractor and the header reader of the converter;
- the comma-list splitters and the template and file-format gates;
- the hierarchy tree `Node`: built from indented text or from a "narrower" dict, exported back to dicts, and compared;
- the validation of the ID-range configuration and the tables built from it;
- the checks of the CI workflow;
- the in-place workbook passes `add_IRI`, `add_related` and `check`, in the current version and an older one.

Every operation carries a contract. The contracts and the lemmas beside them state what the code promises.

The modules follow the source files:

| module | source | form |
|---|---|---|
| `Convert` (convert.dfy) | `src/voc4cat/convert.py` | functions; the extractor is a method with a loop over the rows |
| `Utils` (utils.dfy) | `src/voc4cat/utils.py` | functions; `has_file_in_multiple_formats` is a method with its `seen` set |
| `Tree`, `TreeExport`, `TreeBuild` | `src/voc4cat/util.py` | class `Forest` holding every `Node`'s fields; the exports and the factory functions are methods over it |
| `Config` (config.dfy) | `src/voc4cat/config.py` | validators as functions; the range check and the two tables are methods with loops |
| `Checks` (checks.dfy) | `src/voc4cat/checks.py` | functions; the removal check is a method |
| `Wrapper` (wrapper.dfy) | `src/voc4cat/wrapper.py` | class `Workbook` whose methods rewrite its sheets; row loops as methods |
| `Legacy` (legacy.dfy) | `vocexcel_4cat.py` | methods on a `Workbook` |

Shared modules stand for the Python built-ins the code relies on:

- `Strings`: `strip`, `split`, `join`, `lower`, `splitlines`, `sorted`.
- `Paths`: `Path.suffix`, `Path.stem`, `Path.name`, `with_suffix`, `os.path.splitext`.
- `Dicts`: an insertion-ordered `dict` as a sequence of pairs.
- `Sheets`: cells and rows of a worksheet.
- `RowScan`: the "stop after three empty rows" rule that every sheet pass uses. A row a pass acts on resets its counter of empty rows; a row the reading loop of `children_to_indent` reads does not.
- `Narrower`: a "narrower" dict as a graph: how deep its chains of children go, and the sets of keys that feed each other.
- `Wrappers`: `Option` and `Result`.

A cell is `Option<string>`. `None` is an empty cell. A cell is truthy when it holds a non-empty string.

The model takes these as parameters:

- the file system (directory listings, whether a path exists);
- the workbook as read from disk;
- `slugify`;
- the ORCID and ROR field types;
- the pydantic model validity of concepts, collections and the concept scheme;
- the SHACL conformance result;
- the graph difference.

An exception of the source is a `Failure` or a `Some(error)` carrying one constructor per message.

Where the documentation and the code differ, the model follows the code:

- `checks.py` reads `config.IDRANGES`, while `config.py` defines `idranges`. Here the configuration is an input value.
- `tests/test_config.py:100` expects "GitHub" in the owner message. `config.py:64` writes "github". The model has no message texts beyond the constructor names.
- `build_tree` passes its `sep` only to the synthetic root. Every text line is split with the default `" "` (`util.py:182`). `TreeBuild.BuildTree` states this as written.

## Model

| member | source | states |
|---|---|---|
| Strings.LStrip | src/voc4cat/utils.py:74 | The result is a suffix of the input. It does not start with whitespace. Everything cut off is whitespace. |
| Strings.RStrip | src/voc4cat/util.py:22 | The result is a prefix of the input. It does not end with whitespace. Everything cut off is whitespace. |
| Strings.StripResult | src/voc4cat/utils.py:74 | `strip()` gives a stripped slice of its input. |
| Strings.StripOfStripped | src/voc4cat/utils.py:74 | Stripping a stripped string changes nothing. |
| Strings.StripKeepsNonSpace | src/voc4cat/utils.py:74 | Stripping keeps every occurrence of a non-space character. |
| Strings.LStripKeepsNonSpace | src/voc4cat/utils.py:74 | `lstrip()` keeps every occurrence of a non-space character. |
| Strings.RStripKeepsNonSpace | src/voc4cat/util.py:22 | `rstrip()` keeps every occurrence of a non-space character, in particular of the separator. |
| Strings.SplitOn | src/voc4cat/util.py:22 | `split(sep)` gives at least one piece. |
| Strings.JoinSplit | src/voc4cat/util.py:22 | Joining the pieces of `split(sep)` with `sep` gives the string back. |
| Strings.SplitCharCount | src/voc4cat/util.py:22-23 | Splitting on a character gives one piece more than it occurs, and no piece contains it. |
| Strings.SplitJoinChar | src/voc4cat/convert.py:29 | Pieces free of a character, joined with it, split back into the same pieces. |
| Strings.SplitNoSep | src/voc4cat/util.py:22 | A string without the separator splits into itself. |
| Strings.TidyPieces | src/voc4cat/convert.py:29 | The stripped pieces of the stripped text: one more than the commas, each stripped and comma-free. |
| Strings.TidyPiecesJoin | src/voc4cat/convert.py:29 | Stripped, comma-free tokens joined with "," come back unchanged. |
| Strings.TidyPiecesJoinCommaSpace | src/voc4cat/utils.py:74 | Stripped, comma-free tokens joined with ", " come back unchanged. |
| Strings.SplitCommaSpace | src/voc4cat/utils.py:74 | Splitting tokens joined by ", " on "," gives the first token and then each later one behind a space. |
| Strings.NonEmpty | src/voc4cat/utils.py:75 | `[x for x in entries if x]`: the kept tokens are non-empty entries of the input. |
| Strings.NonEmptyAppend | src/voc4cat/utils.py:75 | The filter distributes over concatenation, so it keeps the input order. |
| Strings.NonEmptyOfNonEmpty | src/voc4cat/utils.py:75 | A list without empty tokens passes the filter unchanged. |
| Strings.Dedup | src/voc4cat/checks.py:63-64 | `list({...})`: the same elements as the input, each once. |
| Strings.LowerIdempotent | src/voc4cat/utils.py:33 | Lower-casing twice is lower-casing once. |
| Strings.LexTotal | src/voc4cat/util.py:122 | String order is total: of two strings one is at most the other. |
| Strings.LexLessAsymmetric | src/voc4cat/util.py:169-173 | Of two strings at most one is less than the other. |
| Strings.LexLessTotal | src/voc4cat/util.py:169-173 | Of two different strings one is less than the other. |
| Strings.LexLessTrans | src/voc4cat/util.py:169-173 | Strict string order is transitive. |
| Strings.LexTrans | src/voc4cat/util.py:122 | Non-strict string order is transitive. |
| Strings.SortBy | src/voc4cat/util.py:122 | `sorted(..., key=...)` is a permutation of its input. |
| Strings.SortBySorted | src/voc4cat/util.py:122 | `sorted(..., key=...)` is ordered by the key and a permutation of its input. |
| Strings.SortedMapped | src/voc4cat/util.py:154 | A list is sorted by a key exactly when the list of its keys is sorted. |
| Strings.SplitLines | src/voc4cat/util.py:182 | `splitlines()` gives lines without line boundaries; only the empty text gives no line. |
| Strings.SplitLinesNext | src/voc4cat/util.py:182 | A single line boundary ends the line before it. |
| Strings.SplitLinesCrLf | src/voc4cat/util.py:182 | "\r\n" is one boundary, not two. |
| Strings.SplitLinesJoin | src/voc4cat/util.py:182 | For text broken only by "\n" and without a final "\n", joining the lines with "\n" gives the text back. |
| Paths.RFind | vocexcel_4cat.py:75 | The position of the last occurrence of a character, or -1 when there is none. |
| Paths.StemSuffix | src/voc4cat/checks.py:63 | `stem` + `suffix` is the name. The suffix is empty or a dot followed by no dot. |
| Paths.WithSuffixSuffix | src/voc4cat/convert.py:131 | After `with_suffix(s)` the suffix is `s` and the stem is unchanged. |
| Paths.SuffixLower | src/voc4cat/utils.py:33 | The suffix of the lower-cased name is the lower-cased suffix. |
| Paths.FileName | src/voc4cat/convert.py:91 | `Path.name`: the part after the last "/", the whole path when there is none. |
| Paths.PathWithSuffixName | src/voc4cat/convert.py:131 | `with_suffix` changes only the file name, whose suffix becomes the new one. |
| Paths.FileNameLower | src/voc4cat/utils.py:33 | The name of the lower-cased path is the lower-cased name. |
| Paths.SplitextRoot | src/voc4cat/utils.py:84 | `os.path.splitext(f)[0]`: the whole path, or a prefix that stops before the last dot, where that dot lies in the file name after the last "/" and is not preceded there by dots only. |
| Paths.SplitextRootDirectoryDot | src/voc4cat/utils.py:84 | A dot in a directory part is no extension: "a.b/c" keeps its whole path. |
| Paths.Keep | src/voc4cat/wrapper.py:77 | The parts `Path` keeps are neither empty nor ".". |
| Paths.SamePathDotPrefix | src/voc4cat/wrapper.py:77 | `Path("./p") == Path("p")`. |
| Dicts.IndexOf | src/voc4cat/wrapper.py:368 | `list.index`: the first position holding the value. |
| Dicts.Get | src/voc4cat/wrapper.py:166 | A lookup finds a value exactly when the key is present, and the value is the one stored with it. |
| Dicts.Put | src/voc4cat/wrapper.py:146 | `d[k] = v`: the keys stay distinct, `k` maps to `v`, other keys keep their values, and an existing key keeps its place. |
| Dicts.AppendNew | src/voc4cat/util.py:106 | Storing a new key appends it at the end. |
| Dicts.AllChildrenHas | src/voc4cat/util.py:67 | `list(chain.from_iterable(narrower.values()))` holds exactly the children of some entry. |
| Dicts.FirstUndefinedChild | src/voc4cat/util.py:70-72 | No child is reported exactly when every child is a key. Otherwise the reported child is one of the children. |
| Dicts.GetIn | src/voc4cat/util.py:89 | With distinct keys, a lookup gives `v` exactly when the pair is an entry. |
| Dicts.PutAll | src/voc4cat/util.py:141-143 | A sequence of assignments keeps the keys distinct. |
| Dicts.PutAllAppend | src/voc4cat/util.py:141-143 | Assignments made in two runs are the assignments of the concatenation. |
| Dicts.PutAllGet | src/voc4cat/util.py:141-143 | After a sequence of assignments a key holds the value of its last assignment; an unassigned key keeps its value. |
| Dicts.PutAllKeys | src/voc4cat/util.py:141-143 | Assignments keep the old keys first, in order, and add exactly the assigned ones. |
| Dicts.Remove | src/voc4cat/util.py:196 | `del d[k]`: one entry fewer, `k` gone, every remaining entry an old one. |
| Dicts.RemoveKeeps | src/voc4cat/util.py:196 | `del d[k]` keeps every other entry. |
| Dicts.RemoveGet | src/voc4cat/util.py:196 | After `del d[k]` every other key has its old value. |
| Sheets.SetCell | src/voc4cat/wrapper.py:112 | `ws.cell(row, col).value = v` sets that cell, keeps the others, and extends a short row. |
| RowScan.Scan | src/voc4cat/wrapper.py:104-119 | The rows a pass handles before it stops are some of the rows there are. |
| RowScan.StopsOnBlank | src/voc4cat/wrapper.py:114-119 | A pass that stops early stops at a row whose A and B are both `None`. |
| RowScan.StopsByThirdBlank | src/voc4cat/wrapper.py:114-119 | Three empty rows in a row end the pass at the latest on the third of them. |
| RowScan.ThreeBlanks | src/voc4cat/wrapper.py:114-119 | Starting with three empty rows, the pass handles at most two rows. |
| RowScan.NoStopAtFirst | src/voc4cat/wrapper.py:116-117 | With the counter below 2, the first row never stops the pass. |
| RowScan.ActedRowDelaysStop | src/voc4cat/wrapper.py:113 | A row the pass acts on resets the counter, so the pass cannot stop on either of the two rows after it: it stops at or before that row, three or more rows later, or not at all. |
| RowScan.ScanStep | src/voc4cat/wrapper.py:108-119 | One row of the loop: reset when acted on, increment on an empty row, stop on the third. A row that is only read keeps the counter. |
| RowScan.BreakKeepsCounter | src/voc4cat/wrapper.py:104 | A pass that breaks without resetting leaves the counter at 2, and the next sheet starts from there. |
| Utils.Constants | src/voc4cat/utils.py:13-25 | The suffix map has distinct keys, maps ".json" to "json-ld" and ".rdf" to "xml". The known endings are the RDF suffixes then ".xlsx". The latest template is "0.4.3". |
| Utils.RdfKeys | src/voc4cat/utils.py:14-22 | The RDF suffixes in declaration order, each once. |
| Utils.SplitAndTidy | src/voc4cat/utils.py:69-75 | "" and `None` give `[]`. Every token is non-empty, stripped and comma-free, and there are at most commas + 1 of them. |
| Utils.SplitAndTidyJoin | src/voc4cat/utils.py:69-75 | Non-empty, stripped, comma-free tokens joined with ", " split back into the same tokens, in order. |
| Utils.SplitAndTidyRoundTrip | src/voc4cat/utils.py:74-75 | Splitting `", ".join(split_and_tidy(s))` gives `split_and_tidy(s)`. |
| Utils.SplitAndTidyKeepsOrder | src/voc4cat/utils.py:74-75 | The tokens are the tidy pieces in input order with the empty ones dropped. Without empty pieces they equal the converter's pieces. |
| Utils.GetTemplateVersion | src/voc4cat/utils.py:49-57 | Without an "Introduction" sheet the version cannot be determined. Otherwise the result is cell J11 as it is. |
| Utils.IsSupportedTemplate | src/voc4cat/utils.py:60-66 | Success, with `True`, exactly for a known version. The error names the supported versions and the supplied value. |
| Utils.XlsxGateIgnoresCase | src/voc4cat/utils.py:33 | A path passes the suffix gate exactly when its lower-cased form does. |
| Utils.LoadWorkbook | src/voc4cat/utils.py:32-36 | The workbook is returned exactly when the lower-cased suffix is ".xlsx". Otherwise the error is "must be xlsx files". |
| Utils.LoadTemplate | src/voc4cat/utils.py:39-46 | Success exactly for an xlsx path whose J11 is "0.4.3". A wrong suffix fails first; then a missing "Introduction" sheet. |
| Utils.HasFileInMultipleFormats | src/voc4cat/utils.py:78-89 | `False` (None) exactly when the stems of the known-format files are distinct. Otherwise the list of every repeat occurrence, which is not empty. |
| Utils.RepeatsEmptyIffDistinct | src/voc4cat/utils.py:85-89 | No repeat occurrence exactly when all names differ. |
| Utils.RepeatsCount | src/voc4cat/utils.py:88-89 | A name seen k times appears k - 1 times among the repeats. |
| Convert.SplitAndTidy | src/voc4cat/convert.py:28-29 | `None` gives `None`. Otherwise one token more than the commas, each stripped and comma-free, empty ones kept. |
| Convert.SplitAndTidyJoin | src/voc4cat/convert.py:28-29 | Stripped, comma-free tokens joined with "," split back into the same tokens. |
| Convert.ExtractConceptsAndCollections | src/voc4cat/convert.py:32-81 | Success exactly when every data row validates. Then the result is the concepts and the collections of the rows, in row order. Otherwise the error names the first failing row, numbered from 1, and its kind. |
| Convert.NothingBeforeFirstSentinel | src/voc4cat/convert.py:40-45 | Before the first sentinel both flags are off and nothing has been extracted. |
| Convert.ConceptsAreDataRows | src/voc4cat/convert.py:40-79 | Every extracted record comes from a row whose column A holds data and is not a sentinel. |
| Convert.CollectionSection | src/voc4cat/convert.py:42-44 | After "Collection URI" and before the next "Concept URI", only collections are added and no concept. |
| Convert.ConceptSection | src/voc4cat/convert.py:40-47 | After "Concept URI", with collection mode on or off, a row is a concept row exactly when its column A holds a non-sentinel value. |
| Convert.EmptyRowSkipped | src/voc4cat/convert.py:46-65 | A row with an empty column A is skipped. It changes neither the mode nor the lists. |
| Convert.ExtractionAppends | src/voc4cat/convert.py:60-75 | Extraction only appends: the records of earlier rows are a prefix of those of later rows. |
| Convert.ConceptRowPlaced | src/voc4cat/convert.py:50-60 | A concept row's record, built from columns A to H, sits after those of the concept rows above it. |
| Convert.CollectionRowPlaced | src/voc4cat/convert.py:68-75 | A collection row's record, built from columns A to E, sits after those of the collection rows above it. |
| Convert.ReadConceptScheme | src/voc4cat/convert.py:99-112 | Each of the eleven header fields comes from its cell: `uri` from B1, `title` from B2, and so on to `pid` from B11. |
| Convert.DestinationNextToInput | src/voc4cat/convert.py:128-131 | Without an output path the Turtle file is the input's name with the suffix ".ttl". |
| Convert.ExcelToRdf | src/voc4cat/convert.py:84-133 | A name not ending in "xlsx" fails before loading. Then a missing sheet, an invalid header and an invalid row fail in that order. On success the vocabulary is returned, or the destination of the file output. |
| Convert.RdfToExcel | src/voc4cat/convert.py:136-158 | Success, with nothing returned, exactly for an RDF ending, a known profile and a conforming file. The first failing test decides the error, and a failed conformance carries the report. |
| Convert.EndingIsCaseSensitive | src/voc4cat/convert.py:141 | The ending test compares plain text: "a.TTL" is refused and "attl" passes. |
| Config.HandleEmptyField | src/voc4cat/config.py:70-75 | The result is `None` exactly for a missing or empty value; any other value is kept. |
| Config.GhNameExamples | src/voc4cat/config.py:48 | The `gh_name` pattern accepts "otto", "no-range" and "". It rejects a leading, trailing or doubled hyphen and an upper-case letter. |
| Config.FieldErrors | src/voc4cat/config.py:46-50 | No field error exactly when every field survives field validation. |
| Config.OrderOfIdsAsWritten | src/voc4cat/config.py:53-68 | The validator as written crashes exactly when `first_id` failed and no owner is given. |
| Config.OrderOfIds | src/voc4cat/config.py:53-68 | The corrected validator never crashes. It passes exactly for an increasing range with an owner, and otherwise agrees with the validator as written. |
| Config.ValidateItem | src/voc4cat/config.py:45-75 | Validating an ID range never crashes. |
| Config.ValidItemIff | src/voc4cat/config.py:45-68 | A range is valid exactly when `first_id >= 1`, `last_id > first_id`, every field is valid and an ORCID or GitHub name is given. The item then keeps those values with empty IDs normalised to `None`. |
| Config.LastNotGreaterReported | src/voc4cat/config.py:54-58 | An owned range whose `last_id` is not above `first_id` is rejected with both numbers. |
| Config.ValidatorsAgree | src/voc4cat/config.py:53-68 | Wherever the validator as written does not crash, the corrected one gives the same outcome. |
| Config.UnboundWithoutFirstId | src/voc4cat/config.py:60-67 | `first_id = 0` without an owner crashes as written. Corrected, it reports the bad `first_id` and the missing owner. |
| Config.IdsOf | src/voc4cat/config.py:89 | `range(first, last + 1)` holds exactly the IDs from `first` to `last`, both included. |
| Config.LowestShared | src/voc4cat/config.py:90-92 | `min(reused)`: the smallest ID of the range already defined, or none when no ID is shared. |
| Config.HighestShared | src/voc4cat/config.py:90-92 | `max(reused)`: the largest ID of the range already defined, or none when no ID is shared. |
| Config.ValidateVocab | src/voc4cat/config.py:77-95 | A vocabulary passes exactly when `id_length` is between 3 and 18 and no ID range reuses an ID. Otherwise every failing field is reported: the bad `id_length`, and the first overlap with its lowest and highest shared IDs. |
| Config.CheckIdRanges | src/voc4cat/config.py:85-95 | The list is returned unchanged exactly when no range reuses an ID of an earlier one. Otherwise the error names the first clashing range's lowest and highest reused IDs. |
| Config.DefinedBeforeMeans | src/voc4cat/config.py:87-94 | An ID is in `ids_defined` at range j exactly when an earlier range holds it. |
| Config.NoneReusedIffDisjoint | src/voc4cat/config.py:85-95 | The check passes exactly when no two ranges share an ID. |
| Config.TwoRangesClash | src/voc4cat/config.py:89-92 | Two ranges share exactly the IDs from the later start to the earlier end. |
| Config.LowerKeys | src/voc4cat/config.py:100 | The lower-cased table has distinct, lower-case keys, one for every raw key, and no more entries than the raw table. |
| Config.LowerKeysLastWins | src/voc4cat/config.py:100 | Every lower-cased key comes from a raw key. Each holds the value of the last raw entry with that lower-cased key. |
| Config.CaseVariantsMerge | src/voc4cat/config.py:100 | Two keys that differ only by case become one vocabulary, which holds the later value. |
| Config.ValidateConfig | src/voc4cat/config.py:98-110 | The configuration fails exactly under `single_vocab` with more than one vocabulary after lower-casing. On success it holds the lower-cased table. |
| Config.FailedErrors | src/voc4cat/config.py:98-101 | The errors collected for the `vocabs` field are exactly those of the vocabularies that failed, and there are none when all pass. |
| Config.LoadConfig | src/voc4cat/config.py:98-116 | Loading succeeds exactly when every vocabulary validates and the single-vocabulary rule holds, with the lower-cased table. A failed vocabulary gives exactly the collected vocabulary errors; otherwise the only error is the inconsistency. It never raises `KeyError`. |
| Config.LoadConfigAsWritten | src/voc4cat/config.py:105-110 | As written, the load raises `KeyError` exactly when `single_vocab` is set and some vocabulary failed. Everywhere else it agrees with `LoadConfig`. |
| Config.KeyErrorOnInvalidVocab | src/voc4cat/config.py:105-110 | One vocabulary with overlapping ranges under `single_vocab`: `KeyError` as written, the overlap error as intended. |
| Config.SingleVocabCaseVariants | src/voc4cat/config.py:105-110 | Under `single_vocab`, "MyVocab" and "myvocab" count as one vocabulary and pass. |
| Config.IdentifierOf | src/voc4cat/config.py:128 | The pattern finds exactly `id_length` digits at the end of the text, or at the end before a final newline. |
| Config.IdentifierTrailing | src/voc4cat/config.py:128 | An identifier ending in n digits gives those digits. A pattern for n + 1 digits finds nothing when a non-digit precedes them. |
| Config.IdPatterns | src/voc4cat/config.py:124-128 | There is a pattern for a vocabulary exactly when its `id_length` is positive, and it uses that length. |
| Config.AppendTo | src/voc4cat/config.py:130 | `defaultdict(list)[a].append(rng)` extends `a`'s list by `rng` and keeps every other list. |
| Config.AppendIf | src/voc4cat/config.py:135-140 | A conditional append adds `rng` to the named actor's list only when the field is set. |
| Config.AddItem | src/voc4cat/config.py:133-140 | One ID range appends its range once per truthy identity field (ORCID, GitHub name, ROR ID) to that identity's list. |
| Config.IdRangesByActor | src/voc4cat/config.py:130-140 | Every actor's list is the ranges it owns across all vocabularies, in configuration order. Every listed actor owns a range. |
| Checks.ValidateConfigHasIdrange | src/voc4cat/checks.py:21-29 | An error exactly when the configuration is detailed and the vocabulary is missing or has no ID range. The error names the vocabulary. |
| Checks.DefaultConfigHasNoIdrangeError | src/voc4cat/checks.py:23-25 | The default configuration never reports a missing ID range. |
| Checks.ConfiguredRangePasses | src/voc4cat/checks.py:26-29 | A configured vocabulary with at least one ID range passes. |
| Checks.CheckNumberOfFilesInInbox | src/voc4cat/checks.py:32-40 | An error exactly under `single_vocab` with more than one xlsx file; it carries the count. |
| Checks.StemNames | src/voc4cat/checks.py:63-64 | The lower-cased stems of the files, each once. |
| Checks.DedupStems | src/voc4cat/checks.py:63-64 | Deduplicating the per-file stems gives the stem names. |
| Checks.NotIn | src/voc4cat/checks.py:93-97 | The names that are not configured, in order. |
| Checks.NotInAppend | src/voc4cat/checks.py:93-97 | Filtering the chained lists keeps the vocabulary names before the inbox names. |
| Checks.CheckNames | src/voc4cat/checks.py:71-101 | No error exactly when the single-vocabulary rule holds and every name is configured. Each error comes exactly under its own condition, in the source's order: the inbox-name mismatch; then a lone unconfigured vocabulary, reported with the vocabulary directory; then a lone unconfigured inbox name, reported as a new vocabulary with the inbox directory; and last a list of every missing name. |
| Checks.ValidateVocabularyFilesForCi | src/voc4cat/checks.py:43-101 | Without a detailed configuration, or with no vocabularies, there is no error. Otherwise the name check runs on the deduplicated lower-cased stems. |
| Checks.LoneVocabReportedFirst | src/voc4cat/checks.py:81-84 | A lone vocabulary file that is not configured is reported by name, before any inbox file. |
| Checks.LoneInboxReportedThird | src/voc4cat/checks.py:86-89 | With the mismatch rule kept and the vocabulary files passing, a lone unconfigured inbox name is reported as a new vocabulary in the inbox directory. |
| Checks.SameStemCounted | src/voc4cat/checks.py:62-64 | Files whose paths differ only in directory, case or suffix count as one name. |
| Checks.CountTypedPositive | src/voc4cat/checks.py:124-131 | The count of typed subjects is positive exactly when some triple types a subject with that class. |
| Checks.DeleteAllowed | src/voc4cat/checks.py:120-121 | Deletion is allowed only for a configured vocabulary of that stem whose `allow_delete` is set. With distinct keys it is allowed exactly then. |
| Checks.MixedCaseStemForbidsDelete | src/voc4cat/checks.py:120-121 | A validated configuration has lower-case keys, so a stem with an upper-case letter never allows deletion. |
| Checks.CheckForRemovedIris | src/voc4cat/checks.py:104-134 | An error exactly when deletion is not allowed and some Concept or Collection was removed. The error carries the count of both. |
| Checks.RemovalForbiddenIff | src/voc4cat/checks.py:122-134 | Removal is forbidden exactly when deletion is not allowed and some removed triple types a subject as Concept or Collection. |
| Wrapper.FirstMissing | src/voc4cat/wrapper.py:97-106 | The first sheet name, in order, that the workbook lacks, or none when it has them all. |
| Wrapper.Reach | src/voc4cat/wrapper.py:108-119 | The number of rows a pass handles is at most the number of rows from row 3 on. |
| Wrapper.Updated | src/voc4cat/wrapper.py:108-112 | A pass keeps the number of rows. |
| Wrapper.UpdatedCell | src/voc4cat/wrapper.py:108-112 | A cell after a pass is rewritten on the rows the pass acts on and kept elsewhere. |
| Wrapper.FillRows | src/voc4cat/wrapper.py:108-119 | The write loop gives the sheet with each acted-on row updated up to the stop, and the counter the stop rule leaves. |
| Wrapper.Collected | src/voc4cat/wrapper.py:142-154 | The dict a read loop fills has distinct keys, each from a row the pass takes. |
| Wrapper.CollectedLastWins | src/voc4cat/wrapper.py:146 | A key holds the value of the last row taken with that key; a key no row has is absent. |
| Wrapper.CollectRows | src/voc4cat/wrapper.py:142-154 | The read loop gives the dict of the rows taken up to the stop, and the counter it leaves. |
| Wrapper.UpdatedStopsAtThirdBlank | src/voc4cat/wrapper.py:114-119 | Three empty rows end the pass: no row after them changes. |
| Wrapper.IriBase | src/voc4cat/wrapper.py:97-101 | `None` gives "". Otherwise the base IRI starts with B2 and ends with one "/", which is added only when missing. |
| Wrapper.IriSheetCells | src/voc4cat/wrapper.py:108-112 | Only cell A of the acted-on rows before the stop changes, to base + slug(B) + suffix. Every other cell keeps its value. |
| Wrapper.CollectionsStopAtOnce | src/voc4cat/wrapper.py:104-119 | The counter is not reset between the sheets. After the Concepts sheet stops on its third empty row, a Collections sheet starting with an empty row is left as it is. |
| Wrapper.FoundIris | src/voc4cat/wrapper.py:165-169 | The found IRIs are values of the lookup; there are no more of them than slugs. |
| Wrapper.FoundIrisOne | src/voc4cat/wrapper.py:165-169 | One slug gives its IRI when the lookup knows it, and nothing when it does not. |
| Wrapper.FoundIrisAppend | src/voc4cat/wrapper.py:165-169 | The IRIs of two runs of slugs are those of the first run followed by those of the second. With `FoundIrisOne`, the result is the IRIs of the known slugs in slug order, with unknown slugs skipped. |
| Wrapper.FoundIrisAllKnown | src/voc4cat/wrapper.py:165-169 | With every slug known, each slug gives exactly its IRI, in slug order. |
| Wrapper.RelatedUpdateCell | src/voc4cat/wrapper.py:170 | The fill writes the found IRIs joined by ", " into the target cell and keeps the row's other cells. |
| Wrapper.FillKindActed | src/voc4cat/wrapper.py:160 | The fill acts on a row exactly when its target cell is falsy and its by-label cell truthy. |
| Wrapper.LookupLastWins | src/voc4cat/wrapper.py:142-154 | A slug maps to the IRI of the last row, before the lookup loop stops, that has both A and B and that slug. |
| Wrapper.RelatedSheetCells | src/voc4cat/wrapper.py:156-177 | One sheet of `add_related` rewrites only the target cell of the rows the fill acts on, with the joined IRIs of the known labels. |
| Wrapper.Workbook.RelatedPass | src/voc4cat/wrapper.py:139-177 | One sheet: the lookup loop, then the fill loop, with the counter handed on. |
| Wrapper.CheckEntries | src/voc4cat/wrapper.py:355-359 | There are no more entries than rows. |
| Wrapper.MarksIffRepeat | src/voc4cat/wrapper.py:360-371 | Nothing is highlighted exactly when no `"IRI"@lang` key repeats. |
| Wrapper.MarksPointAtFirst | src/voc4cat/wrapper.py:360-371 | Each highlighted pair names a later entry and the earlier first entry with the same key. |
| Wrapper.CheckRows | src/voc4cat/wrapper.py:352-380 | The check loop gives the marks of the entries up to the stop, and fails exactly when a key repeats. |
| Wrapper.CheckRow | src/voc4cat/wrapper.py:355-380 | One row of the check loop keeps `seen`, the first rows and the marks in step with the entries so far. |
| Wrapper.ChildList | src/voc4cat/wrapper.py:266-269 | A falsy G cell gives no children. Otherwise one stripped part more than there are commas. |
| Wrapper.EmptyChildNeverDefined | src/voc4cat/wrapper.py:284-286 | No concept row defines the child "". So a G cell with an empty part, such as "a, ", always fails the check. |
| Wrapper.MayOverwrite | src/voc4cat/wrapper.py:76-84 | Refused exactly when `--no-warn` is off, the output exists and it is the same path as the input. |
| Wrapper.OverwriteSeesDotPrefix | src/voc4cat/wrapper.py:77 | "./name" and "name" are the same file, so writing over it is refused. |
| Wrapper.Workbook.FillIris | src/voc4cat/wrapper.py:103-119 | The sheets become those of the two IRI passes, Concepts then Collections, sharing one counter. |
| Wrapper.Workbook.AddIri | src/voc4cat/wrapper.py:87-123 | A missing sheet is an error that leaves the workbook as it was. Otherwise the sheets become those of `add_IRI` with the base from B2 and "-coll" on Collections. |
| Wrapper.Workbook.AddRelated | src/voc4cat/wrapper.py:126-181 | A missing sheet is an error that leaves the workbook as it was. Otherwise the sheets become those of `add_related`: G from J on Concepts, D from F on Collections. |
| Wrapper.Workbook.Check | src/voc4cat/wrapper.py:338-388 | Without a Concepts sheet the check fails. Otherwise the code is 1 exactly when an IRI is used twice for one language, else 0. Every repeat is marked with the row of the key's first use. |
| Wrapper.Workbook.CheckChildrenDefined | src/voc4cat/wrapper.py:255-286 | Without a Concepts sheet the check fails. Otherwise there is no error exactly when every child URI read before the stop is a concept. The reported URI is the first child, in reading order, that is not a concept. |
| Wrapper.SampleChildrenStopEarly | src/voc4cat/wrapper.py:259-286 | The reading loop never resets its counter. Take row 3 empty, row 4 concept "a" listing child "b", row 5 empty, row 6 concept "c", row 7 empty and row 8 concept "b". The loop stops at row 7, its third empty row. It has read only "a" and "c", so "b" is reported as never defined. |
| Wrapper.HighlightedRowAsWritten | src/voc4cat/wrapper.py:368-369 | On the sample sheet (row 3 empty, rows 4 and 5 the same IRI) the code as written highlights row 3. The corrected marks give row 4. |
| Wrapper.RepeatedPairMarks | src/voc4cat/wrapper.py:368-369 | Two entries with one key in rows 4 and 5: as written the earlier row is taken as 3, corrected it is 4. |
| Legacy.IsExcelFileAvailable | vocexcel_4cat.py:30-37 | A missing name gives `False`. Otherwise the file is available exactly when its lower-cased suffix is ".xlsx" and it exists. |
| Legacy.SuffixEndsWithXlsx | vocexcel_4cat.py:31 | A suffix ends with ".xlsx" exactly when it is ".xlsx". |
| Legacy.AvailableMeansLoadable | vocexcel_4cat.py:30-37 | The older gate accepts exactly the existing files that the suffix gate of `load_workbook` accepts. |
| Legacy.OutputName | vocexcel_4cat.py:75 | A path without a dot fails to unpack. Otherwise the tag goes in front of the last dot. |
| Legacy.OutputNameKeepsExtension | vocexcel_4cat.py:133 | With a tag free of dots, the output name keeps the part before the last dot and the extension, with the tag in between, so it differs from the input. |
| Legacy.AddIri | vocexcel_4cat.py:45-77 | A missing sheet, an empty B2 or a path without a dot fails and leaves the workbook as it was. Otherwise the sheets become those of the IRI passes without a Collections suffix, and the `_i` name is returned. |
| Legacy.AddRelated | vocexcel_4cat.py:80-135 | A missing sheet or a path without a dot fails and leaves the workbook as it was. Otherwise the sheets become those of `add_related` of the current version, and the `_r` name is returned. |
| Legacy.SameConceptsAsWrapper | vocexcel_4cat.py:45-77 | Where both run, the two `add_IRI` versions write the same Concepts sheet. Their Collections sheets differ only by the "-coll" suffix. |
| Tree.LinePieces | src/voc4cat/util.py:22 | The pieces of the right-stripped line, at least one, join back into it. |
| Tree.NodeFields | src/voc4cat/util.py:22-24 | With a one-character separator, the level counts its occurrences in the right-stripped line. The text is the part after the last one and holds none. |
| Tree.NodeWithoutSeparator | src/voc4cat/util.py:22-24 | A line without the separator is a node at level 0 whose text is the right-stripped line. |
| Tree.Forest.NewNode | src/voc4cat/util.py:20-24 | `Node(line, sep)` adds one node with the line's text and level and no children; nothing else changes. |
| Tree.Forest.AppendChild | src/voc4cat/util.py:50 | `children.append(node)` extends one children list by one node; nothing else changes. |
| Tree.FirstBelow | src/voc4cat/util.py:32-40 | The validation loop stops at the first node below the receiver or below the first node, or passes all of them. |
| Tree.FirstJump | src/voc4cat/util.py:55-58 | The first node more than one level deeper than the node before it, or none. |
| Tree.ParentIsLastShallower | src/voc4cat/util.py:51-54 | A node deeper than the first node goes under the last node one level above it. |
| Tree.ParentAt | src/voc4cat/util.py:51-54 | The node a position goes under comes before it, or is the receiver (-1). |
| Tree.DeeperGoesUnderPrevious | src/voc4cat/util.py:51-54 | A node one level deeper than the node before it goes under that node. |
| Tree.DirectChildren | src/voc4cat/util.py:49-50 | The receiver gets exactly the nodes at the first node's level, in input order. |
| Tree.NothingAttachedYet | src/voc4cat/util.py:44-54 | A node gets no children from the attach loop before its own turn. |
| Tree.Forest.AddChildren | src/voc4cat/util.py:28-41 | `[]` changes nothing. A node below the receiver or the first node raises and changes nothing. Otherwise each node is attached in input order until one is too deep, which raises. Only the children lists change. |
| Tree.Forest.AttachAll | src/voc4cat/util.py:43-61 | The corrected attach loop: an error exactly at the first node too deep; each node goes under its owner up to it. |
| Tree.AttachLoop | src/voc4cat/util.py:43-61 | The attach loop on the forest's fields as values, with the same result. |
| Tree.AttachAsWritten | src/voc4cat/util.py:43-61 | `__add_children` as written, with a step bound: every child it records is a node of the list. |
| Tree.AttachAsWrittenNeverReturns | src/voc4cat/util.py:43-61 | For the levels 0 and 1 under a level-0 root, no number of steps lets the code as written return. |
| Tree.FirstParent | src/voc4cat/util.py:111-112 | The first entry whose children hold the key, or none. |
| Tree.GetLevel | src/voc4cat/util.py:109-114 | A level found is at least the start level. |
| Tree.RootKeepsLevel | src/voc4cat/util.py:103-104 | A key that is nobody's child keeps the start level, which is what a root is given anyway. |
| Tree.GetLevelShift | src/voc4cat/util.py:109-114 | The level is the start level plus the key's depth. |
| Tree.GetLevelFuel | src/voc4cat/util.py:109-114 | More steps do not change a level once it is found. |
| Tree.RemoveFirst | src/voc4cat/util.py:107 | `stack.remove(x)` removes one occurrence of a present element and changes nothing otherwise. |
| Tree.ReadyOf | src/voc4cat/util.py:88-95 | `to_add`: the stack entries whose children all have a node, in stack order. |
| Tree.AllChildrenDefined | src/voc4cat/util.py:90-93 | The inner loop finds `all_children_defined` exactly when every child has a node. |
| Tree.ReadyEntries | src/voc4cat/util.py:88-95 | The loop over the stack collects exactly the ready entries. |
| Tree.RootNodes | src/voc4cat/util.py:103-105 | The nodes appended to the receiver are those of the keys that are nobody's child, in the order they are made. |
| Tree.Forest.AddLeaves | src/voc4cat/util.py:76-83 | The first loop makes a node for every childless key that is nobody's child and puts every other entry on the stack. |
| Tree.Forest.AddEntry | src/voc4cat/util.py:77-83 | One entry of the first loop is either made into a node or put on the stack. |
| Tree.Forest.MakeNode | src/voc4cat/util.py:98-106 | A ready entry becomes a node with its level and its children's nodes, and goes under the receiver when it is nobody's child. |
| Tree.Forest.AddReady | src/voc4cat/util.py:97-107 | A ready entry becomes a node and leaves the stack. |
| Tree.Forest.AddRound | src/voc4cat/util.py:97-107 | One pass of `while stack` makes a node for each ready entry and takes it off the stack. |
| Tree.Forest.AddNodesNarrower | src/voc4cat/util.py:63-107 | A child that is not a key raises, as the first undefined child, before anything changes. A pass that finds nothing ready, or a level `get_level` cannot reach, comes with a self-fed list of keys, so it happens only on a cycle. With every child defined and no cycle the call succeeds. On success every key becomes one new node with the key's text, its level and its children's nodes. The keys that are nobody's child go under the receiver; other old nodes do not change. |
| Tree.NoLevelChain | src/voc4cat/util.py:108-113 | When `get_level` finds a parent on each of its steps, the keys it climbs form a chain in which each key lists the one before as a child. |
| Tree.NoLevelSelfFed | src/voc4cat/util.py:108-113 | A chain of more parents than the dict has keys repeats a key, so `get_level` runs out of steps only on a cycle: the keys between the repeats are self-fed. |
| Tree.StuckSelfFed | src/voc4cat/util.py:86-107 | With every child a key, a pass of `while stack` that finds nothing ready leaves a stack whose keys are self-fed. |
| TreeExport.AsDict | src/voc4cat/util.py:116-126 | The dict carries the node's text. It is a plain text exactly when the node has no children. |
| TreeExport.AsDictChildren | src/voc4cat/util.py:118-124 | An inner node's child dicts are sorted by text and carry exactly the texts of its children. |
| TreeExport.AsDicts | src/voc4cat/util.py:120-123 | The dicts of a list of nodes, one per node. |
| TreeExport.AsDictsTexts | src/voc4cat/util.py:120-123 | The texts of the dicts are the texts of the nodes. |
| TreeExport.SortedKids | src/voc4cat/util.py:122 | The children sorted by text are a permutation of the children. |
| TreeExport.SortedChildTexts | src/voc4cat/util.py:154 | `sorted([c.text for c in children])` is sorted and holds the children's texts. |
| TreeExport.LevelPairs | src/voc4cat/util.py:141 | The pair (text, level) of each node. |
| TreeExport.LevelEntriesOf | src/voc4cat/util.py:140-147 | `as_level_dict` records the node's own pair first, then those of its children's subtrees in sorted order. |
| TreeExport.AsLevelDict | src/voc4cat/util.py:136-147 | The result is `out` after assigning text to level for the node and then for each child's subtree in sorted order. |
| TreeExport.AsLevelDictKids | src/voc4cat/util.py:142-143 | The loop over the sorted children makes the assignments of their subtrees in turn. |
| TreeExport.NarrowerPairs | src/voc4cat/util.py:154 | The pair (text, sorted child texts) of each node. |
| TreeExport.NarrowerEntriesOf | src/voc4cat/util.py:153-158 | `as_narrower_dict` records the node's own pair first, then those of its children's subtrees in listed order. |
| TreeExport.AsNarrowerDict | src/voc4cat/util.py:149-159 | The result is `out` after mapping each node's text to its sorted child texts, `[]` for a leaf, in visit order. |
| TreeExport.AsNarrowerDictKids | src/voc4cat/util.py:155-156 | The loop over the children in listed order makes the assignments of their subtrees in turn. |
| TreeExport.Value | src/voc4cat/util.py:162-166 | A node's value has its text and level and one value per child. |
| TreeExport.FirstDiff | src/voc4cat/util.py:169-173 | The first place where two children lists hold unequal nodes, or the shorter length. |
| TreeExport.EqIsEquality | src/voc4cat/util.py:161-166 | `__eq__` holds exactly when the values are equal. |
| TreeExport.EqualMeans | src/voc4cat/util.py:161-166 | Two nodes of the forest are equal exactly when their texts, levels and children's values, in order, are. |
| TreeExport.LessIrreflexive | src/voc4cat/util.py:168-173 | No node is less than itself. |
| TreeExport.LessAsymmetric | src/voc4cat/util.py:168-173 | Of two nodes at most one is less than the other. |
| TreeExport.LessTotal | src/voc4cat/util.py:168-173 | Of two different nodes one is less than the other. |
| TreeExport.LessTransitive | src/voc4cat/util.py:168-173 | `<` of nodes is transitive, so `total_ordering` derives a consistent order. |
| TreeExport.ListLessTransitive | src/voc4cat/util.py:169-173 | The children-list step of transitivity. |
| TreeBuild.NonBlank | src/voc4cat/util.py:182 | The kept lines are some of the lines. |
| TreeBuild.NonBlankMembers | src/voc4cat/util.py:182 | `if line.strip()` keeps exactly the lines that are not blank. |
| TreeBuild.NonBlankAll | src/voc4cat/util.py:182 | Lines that are all non-blank are all kept. |
| TreeBuild.LinesJoin | src/voc4cat/util.py:182 | For "\n"-separated text without blank lines, the lines joined by "\n" give the text back. |
| TreeBuild.NodeTextsAt | src/voc4cat/util.py:182 | The k-th text is that of `Node(line)` for the k-th line. |
| TreeBuild.NodeLevelsAt | src/voc4cat/util.py:182 | The k-th level is that of `Node(line)` for the k-th line. |
| TreeBuild.BuildTree | src/voc4cat/util.py:179-183 | The empty separator fails and adds nothing. Otherwise a root node and one node per non-blank line are added, and the children lists follow `add_children` on the root. On success the root is returned. |
| TreeBuild.AttachLines | src/voc4cat/util.py:182 | `root.add_children(nodes)` on the fresh line nodes gives the tree `BuiltTree` describes. |
| TreeBuild.NewNodes | src/voc4cat/util.py:182 | `[Node(line) for line in lines]`: one fresh childless node per line, with its text and level. |
| TreeBuild.CheckedLevels | src/voc4cat/util.py:181-182 | The levels `add_children` checks are those of the lines, and the root's level is that of the synthetic root. |
| TreeBuild.DefaultRoot | src/voc4cat/util.py:181 | With a separator not in "root", the root is "root" at level 0, and a line below it can only fail as below the first node. |
| TreeBuild.SpanNoRepeats | src/voc4cat/util.py:182 | The new nodes are distinct. |
| TreeBuild.RootKeys | src/voc4cat/util.py:188-192 | The roots are exactly the keys that are nobody's child. |
| TreeBuild.FindRoots | src/voc4cat/util.py:188-192 | The loop collects the roots, in key order. |
| Narrower.SelfFedUnbounded | src/voc4cat/util.py:86-113 | No key of a self-fed list has chains of children of bounded length. |
| Narrower.SelfFedNotWellFounded | src/voc4cat/util.py:86-113 | A dict with a self-fed list has a cycle: no bound holds for all its keys. |
| Narrower.BoundedInSubDict | src/voc4cat/util.py:193-196 | A dict made of entries of another has chains no longer than the other's. |
| Narrower.WellFoundedSubDict | src/voc4cat/util.py:193-196 | Taking entries out of a dict without cycles leaves it without cycles. |
| TreeBuild.RestOf | src/voc4cat/util.py:193-201 | The dict handed to `add_nodes_narrower`, without the single root; its keys stay distinct. |
| TreeBuild.BuildFromNarrower | src/voc4cat/util.py:186-204 | No root raises "No root found on root level." and changes nothing. Otherwise the single root, or a synthetic "root", receives the rest of the dict as `add_nodes_narrower` does. A loop or a recursion without end happens only on a cycle of the rest. A dict with a root, every child defined and no cycle always builds. |
| TreeBuild.RestKeepsShape | src/voc4cat/util.py:193-203 | The dict handed on without the single root keeps every child defined and stays free of cycles. |
| TreeBuild.RemoveRootKeepsDefined | src/voc4cat/util.py:193-196 | Removing a root from a dict whose children are all keys keeps that true. |
| TreeBuild.ChildOfRest | src/voc4cat/util.py:196 | A child in the dict without the root is a child in the whole dict. |
| TreeBuild.RootChildrenUnchecked | src/voc4cat/util.py:193-203 | For `{"a": ["b"]}` the dict has an undefined child, yet the rest passes to `add_nodes_narrower` empty: the single root's own children are never looked at. |

## Left out

- File and workbook I/O: openpyxl loading and saving, `glob`, `os.path.exists`, `os.path.normcase` and directory handling. Listings, existence tests and loaded workbooks are parameters, and a save is the returned name or workbook.
- The CLI and argument handling: `main` of `convert.py`, `main_cli`, `run_vocexcel` and `wrapper` of `vocexcel_4cat.py`, and all printing and exit codes beyond those the passes return.
- RDF machinery: rdflib graph building and serialisation, `pyshacl.validate` and `compare.graph_diff`. Conformance is a flag with its report text, and the graph difference is a list of triples.
- The pydantic models of `models.py` and the field types `AnyHttpUrl`, `Orcid` and `Ror`: their validity is a parameter.
- `slugify` is an uninterpreted parameter.
- `merge_vocab.py`, `run_ontospy`, `load_config` and the TOML reader, logging and `warn` are left out: they are plumbing, foreign calls or messages only.
- `Node(sep=None)` is left out: it splits on runs of whitespace. The model takes a string separator.
- `Node.as_indented_text` (`util.py:128-134`) is not modelled. It only formats the level dict as text.
- `indent_to_children` and `children_to_indent` are modelled only in their undefined-child check. Their cell copying and indentation styling are formatting of the tree exports.
- `is_file_available` and the template gate of `wrapper.py`: this `is_supported_template` always returns `True`, so `add_IRI` and the other passes do no version check.
- `has_file_in_more_than_one_format` of `wrapper.py:55-68` is the code of `utils.py:78-89`, checked against the ending list of the vocexcel package, which is not part of this model. `Utils.HasFileInMultipleFormats` stands for both.
- Unicode case mapping and most Unicode whitespace are not modelled. `Strings.Lower` maps only 'A' to 'Z'.
- Strings.IsSpace: counts as whitespace only ' ', the code points 9 to 13, 0x1c to 0x1f, 0x85 and 0xa0. `Strip` and `RStrip` keep all other Unicode spaces, such as U+2000 to U+200A and U+3000, as text.
- Strings.IsLineBreak: `splitlines` breaks at '\n', '\r', 0x0b, 0x0c, 0x1c to 0x1e, 0x85, U+2028 and U+2029, which is Python's full list.
- Cell fill colours are left out. `Wrapper.Workbook.Check` returns the pairs of highlighted rows instead of colouring them, and the workbook is saved, by the caller, when the code is 1.
- Tree.GetLevel: the recursion without end of `get_level` on a cyclic dict is a step bound. `None` stands for Python's `RecursionError`. Python's recursion limit (about 1000 frames) also raises `RecursionError` on a deep chain without a cycle, where the model returns the level.
- Tree.Forest.AddNodesNarrower: when a pass of `while stack` finds no ready entry, the source loops for ever. The model returns `Stuck` instead, with a self-fed list of keys as its witness, and states nothing about the forest then. A level beyond the step bound is `DepthExceeded`. The converse is not proved: that every dict with a cycle fails.
- Tree.Forest.AddChildren: requires the nodes to be fresh, distinct and childless, as `build_tree` makes them. The source accepts any `Node` objects, including shared or cyclic ones.
- Tree.Forest.NewNode: requires a non-empty separator. `str.split("")` raises, which `TreeBuild.BuildTree` models as `EmptySeparator`.
- TreeBuild.BuildTree and TreeBuild.BuildFromNarrower: when an error is raised part-way, the nodes made before it stay in the forest, unreachable. The contracts do not describe them.
- TreeExport.AsLevelDict and TreeExport.AsNarrowerDict: the `out` dict is passed in and returned, rather than shared and mutated by the recursive calls.
- Config.LowerKeys: its own contract gives the keys only. Config.LowerKeysLastWins states where the keys come from and which value each keeps.
- Wrapper.FoundIris: its own contract gives only bounds and where the IRIs come from. Wrapper.FoundIrisOne and Wrapper.FoundIrisAppend state the rest: the IRIs of the known slugs, in slug order.
- Config.LoadConfig: the outcome of validating each vocabulary table is a parameter. Config.ValidateVocab and Config.ValidateItem compute it; they are not chained into the loader. Reading the TOML file is left out.
- Config.ValidateVocab: `permanent_iri_part` and `prefix_map` are `AnyHttpUrl` fields whose validity is not modelled. Only `id_length` and `id_range` are checked.
- Config.GhNameMatches: Python's `\d` in the `gh_name` pattern also matches non-ASCII decimal digits. The model accepts only '0' to '9'.
- Paths.FileName: a path ending in "/" gives the empty name, while `PurePosixPath("vocab.xlsx/").name` is "vocab.xlsx". Paths typed by the user reach it through Convert.ExcelToRdf, Utils.LoadWorkbook, Utils.LoadTemplate, Legacy.IsExcelFileAvailable and Wrapper.MayOverwrite. For such a path the model refuses a file that the source accepts and opens.
- Paths.PathWithSuffix: the directory part is kept as written, so Convert.Destination keeps a leading "./" or a "//", which `Path(...).with_suffix` normalises away ("./a.xlsx" becomes "a.ttl" there).
- Paths.SamePath: a path starting with "//" is treated like one starting with "/", while `PurePosixPath` keeps the two-slash anchor apart.
- Checks.StemNames: `list({...})` in the source has arbitrary order, which shows in the joined `MissingIdrangeConfig` message. The model keeps first-occurrence order; the contracts speak only of membership.
- Legacy.IsExcelFileAvailable: the list of Excel endings, imported from the vocexcel package, is fixed as `[".xlsx"]`. The same list is printed as `f".{e}"` at wrapper.py:704, so it may hold "xlsx" without the dot. With that list the source would also accept a suffix such as ".fooxlsx", which the model refuses.
- Checks.CountTyped: counts every matching triple of its list. An rdflib graph is a set, so a caller passes the difference without repeats.
- Convert.ExcelToRdf: building the `models.Vocabulary` (`convert.py:120`) is taken to succeed. Its own validation failure is not a parameter.
- Config.IdPatterns: a compiled pattern is its digit count, and `Config.IdentifierOf` says what it matches.
- Checks.ValidateVocabularyFilesForCi: the warning logged in the no-configuration case is left out. Only the return is stated.

## Findings

| source | as written | input that shows it | evidently intended | confidence | as-written member | corrected member |
|---|---|---|---|---|---|---|
| src/voc4cat/util.py:43-61 | `__add_children` copies its list on every call, including the recursive one. So the caller's list never loses the nodes the recursive call attached. | `build_tree("a\n b")`: "b" is attached under "a" again and again, and the call never returns. | Only the outer call copies; the recursive call consumes the shared list. | not executed | Tree.AttachAsWritten, Tree.AttachAsWrittenNeverReturns | Tree.Forest.AddChildren |
| src/voc4cat/wrapper.py:368 | The earlier row of a duplicate is computed as `3 + seen_conceptIRIs.index(key)`. That is right only if every row from row 3 on added a new key. | A Concepts sheet with row 3 empty and rows 4 and 5 holding the same IRI without a language: row 3 is highlighted instead of row 4. | The row where the key was first used. | not executed | Wrapper.MarksAsWritten, Wrapper.HighlightedRowAsWritten | Wrapper.Marks, Wrapper.Workbook.Check |
| src/voc4cat/config.py:105-110 | The root validator of `IDrangeConfig` has no `skip_on_failure`, so pydantic v1 runs it when the `vocabs` field failed and is missing from `values`. Under `single_vocab`, `values["vocabs"]` then raises `KeyError`, which pydantic does not turn into a validation error. | `single_vocab = true` with one vocabulary whose ID ranges overlap: the load raises `KeyError` instead of reporting the overlap. | The validation errors of the failed vocabularies. | not executed | Config.LoadConfigAsWritten, Config.KeyErrorOnInvalidVocab | Config.LoadConfig |
| src/voc4cat/config.py:60-67 | When `first_id` fails field validation and no owner is given, the message uses `first` and `last`, which were never bound. | An ID range with `first_id = 0`, `last_id = 5` and no `gh_name` or `orcid` raises `UnboundLocalError`, not a validation error. | A validation error for the missing owner. | not executed | Config.ValidateItemAsWritten, Config.UnboundWithoutFirstId | Config.ValidateItem |
