/**
 * The spreadsheet-to-RDF converter: the comma-list splitter, the sentinel-driven extraction of
 * concepts and collections from column A, the concept-scheme header and the gates of the two
 * conversion entry points.
 */
module Convert {
  import opened Wrappers
  import opened Strings
  import opened Paths
  import opened Sheets

  const RdfFileEndings: seq<string> := ["ttl", "rdf", "xml", "json-ld", "json", "nt", "n3"]
  const ExcelFileEndings: seq<string> := ["xlsx"]
  const DefaultSheet := "vocabulary"
  /** Column-A texts that switch the extractor's mode. */
  const ConceptSentinel := "Concept URI"
  const CollectionSentinel := "Collection URI"

  /** `split_and_tidy` of this module: `None` stays `None`; empty pieces are kept. */
  function SplitAndTidy(cell: Cell): (r: Option<seq<string>>)
    ensures cell.None? <==> r.None?
    ensures r.Some? ==> |r.value| == CountChar(cell.value, ',') + 1
    ensures r.Some? ==> forall i :: 0 <= i < |r.value| ==> IsStripped(r.value[i]) && ',' !in r.value[i]
  {
    if cell.None? then None else Some(TidyPieces(cell.value))
  }

  /** Joining stripped, comma-free tokens with "," and splitting again gives the tokens back. */
  lemma SplitAndTidyJoin(ts: seq<string>)
    requires |ts| >= 1
    requires forall i :: 0 <= i < |ts| ==> IsStripped(ts[i]) && ',' !in ts[i]
    ensures SplitAndTidy(Some(Join(ts, ","))) == Some(ts)
  {
    TidyPiecesJoin(ts);
  }

  /** A concept row as handed to the `Concept` model: columns A to H, three of them split. */
  datatype Concept = Concept(
    uri: Cell, prefLabel: Cell, altLabels: Option<seq<string>>, definition: Cell,
    children: Option<seq<string>>, otherIds: Option<seq<string>>, homeVocabUri: Cell, provenance: Cell)

  /** A collection row as handed to the `Collection` model: columns A to E, D split. */
  datatype Collection = Collection(
    uri: Cell, prefLabel: Cell, definition: Cell, members: Option<seq<string>>, provenance: Cell)

  /** The concept-scheme header: cells B1 to B11 of the sheet. */
  datatype ConceptScheme = ConceptScheme(
    uri: Cell, title: Cell, description: Cell, created: Cell, modified: Cell, creator: Cell,
    publisher: Cell, version: Cell, provenance: Cell, custodian: Cell, pid: Cell)

  /** The vocabulary built from the header and the extracted rows. */
  datatype Vocabulary = Vocabulary(scheme: ConceptScheme, concepts: seq<Concept>, collections: seq<Collection>)

  /**
   * The pydantic models' validation, which lies outside this model: each returns `None` when the
   * record is valid and the validation message otherwise.
   */
  datatype Validators = Validators(
    concept: Concept -> Option<string>,
    collection: Collection -> Option<string>,
    scheme: ConceptScheme -> Option<string>)

  datatype ConversionError =
    | NotExcelFile                                 // ValueError: name does not end in xlsx
    | NotRdfFile(endings: seq<string>)             // ValueError: name has none of the RDF endings
    | UnknownProfile(profiles: seq<string>)        // ValueError: profile token not known
    | NoSuchSheet(name: string)                    // KeyError from the workbook lookup
    | SchemeError(detail: string)                  // "ConceptScheme processing error: ..."
    | ConceptRowError(row: nat, detail: string)    // "Concept processing error, row R, error: ..."
    | CollectionRowError(row: nat, detail: string) // "Collection processing error, row R, error: ..."
    | NotConformant(profile: string, report: string)

  function ConceptOf(row: Row): Concept {
    Concept(CellAt(row, 0), CellAt(row, 1), SplitAndTidy(CellAt(row, 2)), CellAt(row, 3),
            SplitAndTidy(CellAt(row, 4)), SplitAndTidy(CellAt(row, 5)), CellAt(row, 6), CellAt(row, 7))
  }

  function CollectionOf(row: Row): Collection {
    Collection(CellAt(row, 0), CellAt(row, 1), CellAt(row, 2), SplitAndTidy(CellAt(row, 3)), CellAt(row, 4))
  }

  /** The two flags `process_concept` and `process_collection`. */
  datatype Mode = Mode(concept: bool, collection: bool)

  const Start := Mode(false, false)

  /** How a column-A value changes the flags. */
  function Next(m: Mode, a: Cell): Mode {
    if a == Some(ConceptSentinel) then Mode(true, m.collection)
    else if a == Some(CollectionSentinel) then Mode(false, true)
    else m
  }

  /** The flags when the scan reaches 0-based row `i`. */
  function ModeBefore(sheet: Sheet, i: nat): Mode
    requires i <= |sheet|
  {
    if i == 0 then Start else Next(ModeBefore(sheet, i - 1), CellAt(sheet[i - 1], 0))
  }

  predicate IsSentinel(a: Cell) {
    a == Some(ConceptSentinel) || a == Some(CollectionSentinel)
  }

  /** What the extractor does with a row. */
  datatype Role = SentinelRow | ConceptRow | CollectionRow | Skipped

  /** The concept flag is tested before the collection flag; a `None` in column A is skipped. */
  function RoleOf(sheet: Sheet, i: nat): Role
    requires i < |sheet|
  {
    var a := CellAt(sheet[i], 0);
    var m := ModeBefore(sheet, i);
    if IsSentinel(a) then SentinelRow
    else if m.concept then (if a.None? then Skipped else ConceptRow)
    else if m.collection then (if a.None? then Skipped else CollectionRow)
    else Skipped
  }

  /** The concepts built from the rows before row `i`, in row order. */
  function ConceptsUpTo(sheet: Sheet, i: nat): seq<Concept>
    requires i <= |sheet|
  {
    if i == 0 then []
    else ConceptsUpTo(sheet, i - 1) + (if RoleOf(sheet, i - 1) == ConceptRow then [ConceptOf(sheet[i - 1])] else [])
  }

  /** The collections built from the rows before row `i`, in row order. */
  function CollectionsUpTo(sheet: Sheet, i: nat): seq<Collection>
    requires i <= |sheet|
  {
    if i == 0 then []
    else
      var added := if RoleOf(sheet, i - 1) == CollectionRow then [CollectionOf(sheet[i - 1])] else [];
      CollectionsUpTo(sheet, i - 1) + added
  }

  /** A row passes when it is not a data row or its record validates. */
  predicate RowValid(sheet: Sheet, i: nat, v: Validators)
    requires i < |sheet|
  {
    match RoleOf(sheet, i)
    case ConceptRow => v.concept(ConceptOf(sheet[i])).None?
    case CollectionRow => v.collection(CollectionOf(sheet[i])).None?
    case _ => true
  }

  predicate AllRowsValid(sheet: Sheet, v: Validators) {
    forall i :: 0 <= i < |sheet| ==> RowValid(sheet, i, v)
  }

  /** `i` is the first row that fails validation. */
  predicate FirstInvalid(sheet: Sheet, v: Validators, i: nat) {
    i < |sheet| && !RowValid(sheet, i, v) && forall k :: 0 <= k < i ==> RowValid(sheet, k, v)
  }

  /** The error raised for a failing row; worksheet rows are numbered from 1. */
  function RowError(sheet: Sheet, i: nat, v: Validators): ConversionError
    requires i < |sheet| && !RowValid(sheet, i, v)
  {
    if RoleOf(sheet, i) == ConceptRow then ConceptRowError(i + 1, v.concept(ConceptOf(sheet[i])).value)
    else CollectionRowError(i + 1, v.collection(CollectionOf(sheet[i])).value)
  }

  /**
   * `extract_concepts_and_collections`: one pass down column A. All rows valid gives every concept
   * and collection row's record in row order; otherwise the first failing row's error.
   */
  method ExtractConceptsAndCollections(sheet: Sheet, v: Validators)
    returns (r: Result<(seq<Concept>, seq<Collection>), ConversionError>)
    ensures r.Success? <==> AllRowsValid(sheet, v)
    ensures r.Success? ==> r.value == (ConceptsUpTo(sheet, |sheet|), CollectionsUpTo(sheet, |sheet|))
    ensures r.Failure? ==> exists i :: FirstInvalid(sheet, v, i) && r.error == RowError(sheet, i, v)
  {
    var concepts: seq<Concept> := [];
    var collections: seq<Collection> := [];
    var processConcept := false;
    var processCollection := false;
    var i := 0;
    while i < |sheet|
      invariant i <= |sheet|
      invariant Mode(processConcept, processCollection) == ModeBefore(sheet, i)
      invariant concepts == ConceptsUpTo(sheet, i) && collections == CollectionsUpTo(sheet, i)
      invariant forall k :: 0 <= k < i ==> RowValid(sheet, k, v)
    {
      var value := CellAt(sheet[i], 0);
      if value == Some(ConceptSentinel) {
        processConcept := true;
      } else if value == Some(CollectionSentinel) {
        processConcept := false;
        processCollection := true;
      } else if processConcept {
        if value.Some? {
          var c := ConceptOf(sheet[i]);
          var err := v.concept(c);
          if err.Some? {
            assert FirstInvalid(sheet, v, i);
            return Failure(ConceptRowError(i + 1, err.value));
          }
          concepts := concepts + [c];
        }
      } else if processCollection {
        if value.Some? {
          var c := CollectionOf(sheet[i]);
          var err := v.collection(c);
          if err.Some? {
            assert FirstInvalid(sheet, v, i);
            return Failure(CollectionRowError(i + 1, err.value));
          }
          collections := collections + [c];
        }
      }
      i := i + 1;
    }
    return Success((concepts, collections));
  }

  /** Before the first sentinel the flags are both off and nothing has been extracted. */
  lemma {:induction false} NothingBeforeFirstSentinel(sheet: Sheet, i: nat)
    requires i <= |sheet|
    requires forall k :: 0 <= k < i ==> !IsSentinel(CellAt(sheet[k], 0))
    ensures ModeBefore(sheet, i) == Start
    ensures ConceptsUpTo(sheet, i) == [] && CollectionsUpTo(sheet, i) == []
  {
    if i > 0 {
      NothingBeforeFirstSentinel(sheet, i - 1);
    }
  }

  /** Every extracted concept comes from a row whose column A holds data, never a sentinel. */
  lemma {:induction false} ConceptsAreDataRows(sheet: Sheet, i: nat)
    requires i <= |sheet|
    ensures forall k :: 0 <= k < |ConceptsUpTo(sheet, i)| ==>
      ConceptsUpTo(sheet, i)[k].uri.Some? && !IsSentinel(ConceptsUpTo(sheet, i)[k].uri)
    ensures forall k :: 0 <= k < |CollectionsUpTo(sheet, i)| ==>
      CollectionsUpTo(sheet, i)[k].uri.Some? && !IsSentinel(CollectionsUpTo(sheet, i)[k].uri)
  {
    if i > 0 {
      ConceptsAreDataRows(sheet, i - 1);
    }
  }

  /**
   * After a "Collection URI" row and until the next "Concept URI" row, only collections are
   * extracted: the concept list does not grow.
   */
  lemma {:induction false} CollectionSection(sheet: Sheet, j: nat, i: nat)
    requires j < i <= |sheet|
    requires CellAt(sheet[j], 0) == Some(CollectionSentinel)
    requires forall k :: j < k < i ==> CellAt(sheet[k], 0) != Some(ConceptSentinel)
    ensures ModeBefore(sheet, i) == Mode(false, true)
    ensures ConceptsUpTo(sheet, i) == ConceptsUpTo(sheet, j + 1)
    decreases i
  {
    if i > j + 1 {
      CollectionSection(sheet, j, i - 1);
    }
  }

  /**
   * After a "Concept URI" row and until the next "Collection URI" row, every row with data in
   * column A is a concept row, whatever the collection flag says.
   */
  lemma {:induction false} ConceptSection(sheet: Sheet, j: nat, i: nat)
    requires j < i < |sheet|
    requires CellAt(sheet[j], 0) == Some(ConceptSentinel)
    requires forall k :: j < k <= i ==> CellAt(sheet[k], 0) != Some(CollectionSentinel)
    ensures ModeBefore(sheet, i).concept
    ensures RoleOf(sheet, i) == ConceptRow <==> CellAt(sheet[i], 0).Some? && !IsSentinel(CellAt(sheet[i], 0))
    decreases i
  {
    if i > j + 1 {
      ConceptSection(sheet, j, i - 1);
    }
  }

  /** A row with nothing in column A is skipped and leaves the section as it was. */
  lemma EmptyRowSkipped(sheet: Sheet, i: nat)
    requires i < |sheet| && CellAt(sheet[i], 0).None?
    ensures RoleOf(sheet, i) == Skipped
    ensures ModeBefore(sheet, i + 1) == ModeBefore(sheet, i)
    ensures ConceptsUpTo(sheet, i + 1) == ConceptsUpTo(sheet, i)
    ensures CollectionsUpTo(sheet, i + 1) == CollectionsUpTo(sheet, i)
  {
  }

  /** Extraction only appends: what rows before `i` gave is a prefix of what rows before `n` give. */
  lemma {:induction false} ExtractionAppends(sheet: Sheet, i: nat, n: nat)
    requires i <= n <= |sheet|
    ensures ConceptsUpTo(sheet, i) <= ConceptsUpTo(sheet, n)
    ensures CollectionsUpTo(sheet, i) <= CollectionsUpTo(sheet, n)
    decreases n
  {
    if i < n {
      ExtractionAppends(sheet, i, n - 1);
    }
  }

  /** A concept row's record sits at the position given by the number of concept rows above it. */
  lemma ConceptRowPlaced(sheet: Sheet, k: nat, n: nat)
    requires k < n <= |sheet| && RoleOf(sheet, k) == ConceptRow
    ensures |ConceptsUpTo(sheet, k)| < |ConceptsUpTo(sheet, n)|
    ensures ConceptsUpTo(sheet, n)[|ConceptsUpTo(sheet, k)|] == ConceptOf(sheet[k])
  {
    ExtractionAppends(sheet, k + 1, n);
  }

  /** A collection row's record sits at the position given by the number of collection rows above it. */
  lemma CollectionRowPlaced(sheet: Sheet, k: nat, n: nat)
    requires k < n <= |sheet| && RoleOf(sheet, k) == CollectionRow
    ensures |CollectionsUpTo(sheet, k)| < |CollectionsUpTo(sheet, n)|
    ensures CollectionsUpTo(sheet, n)[|CollectionsUpTo(sheet, k)|] == CollectionOf(sheet[k])
  {
    ExtractionAppends(sheet, k + 1, n);
  }

  /** The header read from cells B1 to B11. */
  function ReadConceptScheme(sheet: Sheet): (cs: ConceptScheme)
    ensures cs.uri == CellOf(sheet, 0, 1) && cs.title == CellOf(sheet, 1, 1) && cs.description == CellOf(sheet, 2, 1)
    ensures cs.created == CellOf(sheet, 3, 1) && cs.modified == CellOf(sheet, 4, 1) && cs.creator == CellOf(sheet, 5, 1)
    ensures cs.publisher == CellOf(sheet, 6, 1) && cs.version == CellOf(sheet, 7, 1) && cs.provenance == CellOf(sheet, 8, 1)
    ensures cs.custodian == CellOf(sheet, 9, 1) && cs.pid == CellOf(sheet, 10, 1)
  {
    ConceptScheme(CellOf(sheet, 0, 1), CellOf(sheet, 1, 1), CellOf(sheet, 2, 1), CellOf(sheet, 3, 1),
                  CellOf(sheet, 4, 1), CellOf(sheet, 5, 1), CellOf(sheet, 6, 1), CellOf(sheet, 7, 1),
                  CellOf(sheet, 8, 1), CellOf(sheet, 9, 1), CellOf(sheet, 10, 1))
  }

  datatype OutputType = GraphOutput | StringOutput | FileOutput

  /** What `excel_to_rdf` hands back; the graph and its serialisation are represented by the vocabulary. */
  datatype Output = Graph(vocab: Vocabulary) | Serialized(vocab: Vocabulary) | File(dest: string, vocab: Vocabulary)

  /** Where the file output goes: the given path, or the input path with its suffix set to ".ttl". */
  function Destination(path: string, outputPath: Option<string>): string {
    if outputPath.Some? then outputPath.value else PathWithSuffix(path, ".ttl")
  }

  /** Without an output path the Turtle file sits next to the input, named after it. */
  lemma DestinationNextToInput(path: string)
    requires EndsWithAny(FileName(path), ExcelFileEndings)
    ensures FileName(Destination(path, None)) == WithSuffix(FileName(path), ".ttl")
    ensures Suffix(FileName(Destination(path, None))) == ".ttl"
  {
    PathWithSuffixName(path, ".ttl");
  }

  /**
   * `excel_to_rdf`: the name check comes before the workbook is looked at, the header before the
   * rows, and the output type decides what is returned.
   */
  method ExcelToRdf(path: string, book: Book, sheetName: Option<string>, outputType: OutputType,
                    outputPath: Option<string>, v: Validators)
    returns (r: Result<Output, ConversionError>)
    ensures !EndsWithAny(FileName(path), ExcelFileEndings) ==> r == Failure(NotExcelFile)
    ensures var name := if sheetName.None? then DefaultSheet else sheetName.value;
      EndsWithAny(FileName(path), ExcelFileEndings) ==>
        if name !in book then r == Failure(NoSuchSheet(name))
        else
          var sheet := book[name];
          var cs := ReadConceptScheme(sheet);
          if v.scheme(cs).Some? then r == Failure(SchemeError(v.scheme(cs).value))
          else
            (r.Success? <==> AllRowsValid(sheet, v))
            && (r.Failure? ==> exists i :: FirstInvalid(sheet, v, i) && r.error == RowError(sheet, i, v))
            && (r.Success? ==>
                  var vocab := Vocabulary(cs, ConceptsUpTo(sheet, |sheet|), CollectionsUpTo(sheet, |sheet|));
                  r.value == match outputType
                    case GraphOutput => Graph(vocab)
                    case StringOutput => Serialized(vocab)
                    case FileOutput => File(Destination(path, outputPath), vocab))
  {
    if !EndsWithAny(FileName(path), ExcelFileEndings) {
      return Failure(NotExcelFile);
    }
    var name := if sheetName.None? then DefaultSheet else sheetName.value;
    if name !in book {
      return Failure(NoSuchSheet(name));
    }
    var sheet := book[name];
    var cs := ReadConceptScheme(sheet);
    var schemeError := v.scheme(cs);
    if schemeError.Some? {
      return Failure(SchemeError(schemeError.value));
    }
    var extracted := ExtractConceptsAndCollections(sheet, v);
    if extracted.Failure? {
      return Failure(extracted.error);
    }
    var vocab := Vocabulary(cs, extracted.value.0, extracted.value.1);
    match outputType
    case GraphOutput => r := Success(Graph(vocab));
    case StringOutput => r := Success(Serialized(vocab));
    case FileOutput => r := Success(File(Destination(path, outputPath), vocab));
  }

  /**
   * The gates of `rdf_to_excel`, in order: RDF ending, known profile, then conformance as reported
   * by the SHACL validator (its verdict and report are inputs). Nothing is produced on success.
   */
  function RdfToExcel(path: string, profile: string, profiles: seq<string>, conforms: bool, report: string)
    : (r: Result<(), ConversionError>)
    ensures r.Success? <==> EndsWithAny(FileName(path), RdfFileEndings) && profile in profiles && conforms
    ensures !EndsWithAny(FileName(path), RdfFileEndings) ==> r == Failure(NotRdfFile(RdfFileEndings))
    ensures EndsWithAny(FileName(path), RdfFileEndings) && profile !in profiles ==> r == Failure(UnknownProfile(profiles))
    ensures r.Failure? && r.error.NotConformant? ==> r.error == NotConformant(profile, report) && profile in profiles
  {
    if !EndsWithAny(FileName(path), RdfFileEndings) then Failure(NotRdfFile(RdfFileEndings))
    else if profile !in profiles then Failure(UnknownProfile(profiles))
    else if !conforms then Failure(NotConformant(profile, report))
    else Success(())
  }

  /** The ending checks compare plain text: "a.TTL" is not an RDF file, while "attl" is. */
  lemma EndingIsCaseSensitive()
    ensures !EndsWithAny("a.TTL", RdfFileEndings)
    ensures EndsWithAny("attl", RdfFileEndings)
  {
    assert EndsWith("attl", RdfFileEndings[0]);
  }
}
