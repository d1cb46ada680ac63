/**
 * Helpers shared by the converter: the strict comma-list splitter, the template-version gate, the
 * suffix gates for loading workbooks and the check for a vocabulary present in several RDF formats.
 */
module Utils {
  import opened Wrappers
  import opened Strings
  import opened Paths
  import opened Dicts
  import opened Sheets

  const ExcelFileEndings: seq<string> := [".xlsx"]
  /** RDF file suffix to the rdflib format name, in declaration order. */
  const RdfFileEndings: Dict<string, string> := [
    (".ttl", "ttl"), (".rdf", "xml"), (".xml", "xml"), (".json-ld", "json-ld"),
    (".json", "json-ld"), (".nt", "nt"), (".n3", "n3")]
  const KnownFileEndings: seq<string> := Keys(RdfFileEndings) + ExcelFileEndings
  const KnownTemplateVersions: seq<string> := ["0.4.3"]
  const LatestTemplate: string := KnownTemplateVersions[|KnownTemplateVersions| - 1]
  const IntroductionSheet := "Introduction"

  /** `Voc4catError` raised here, one constructor per message. */
  datatype UtilsError =
    | NotXlsx                      // "Files for conversion to RDF must be xlsx files."
    | TemplateNotXlsx              // "Template files for RDF-to-xlsx conversion must be xlsx files."
    | TemplateNotLatest(latest: string)
    | VersionUndetermined          // "The version of the Excel template cannot be determined."
    | UnsupportedVersion(supported: seq<string>, supplied: Cell)

  /** The map has one entry per suffix, and the latest template is "0.4.3". */
  lemma Constants()
    ensures DistinctKeys(RdfFileEndings)
    ensures Get(RdfFileEndings, ".json") == Some("json-ld") && Get(RdfFileEndings, ".rdf") == Some("xml")
    ensures KnownFileEndings == [".ttl", ".rdf", ".xml", ".json-ld", ".json", ".nt", ".n3", ".xlsx"]
    ensures LatestTemplate == "0.4.3"
  {
    RdfKeys();
    GetAt(RdfFileEndings, 4);
    GetAt(RdfFileEndings, 1);
    assert ExcelFileEndings == [".xlsx"];
  }

  /** The suffixes of the map, in order and each once. */
  lemma RdfKeys()
    ensures Keys(RdfFileEndings) == [".ttl", ".rdf", ".xml", ".json-ld", ".json", ".nt", ".n3"]
    ensures DistinctKeys(RdfFileEndings)
  {
    var d := RdfFileEndings;
    assert Keys(d) == [".ttl", ".rdf", ".xml", ".json-ld", ".json", ".nt", ".n3"];
    forall i, j | 0 <= i < j < |d| ensures d[i].0 != d[j].0 {
      assert d[i].0[1] != d[j].0[1] || |d[i].0| != |d[j].0| || d[i].0[2] != d[j].0[2];
    }
  }

  /** `split_and_tidy` of this module: "" and `None` give no tokens, and empty tokens are dropped. */
  function SplitAndTidy(cell: Cell): (r: seq<string>)
    ensures cell.None? || cell == Some("") ==> r == []
    ensures forall i :: 0 <= i < |r| ==> r[i] != "" && IsStripped(r[i]) && ',' !in r[i]
    ensures cell.Some? ==> |r| <= CountChar(cell.value, ',') + 1
  {
    if cell.None? || cell == Some("") then []
    else
      var pieces := TidyPieces(cell.value);
      var r := NonEmpty(pieces);
      assert forall i :: 0 <= i < |r| ==> r[i] in pieces;
      r
  }

  /** Non-empty, stripped, comma-free tokens joined with ", " split back into the same tokens. */
  lemma SplitAndTidyJoin(ts: seq<string>)
    requires forall i :: 0 <= i < |ts| ==> ts[i] != "" && IsStripped(ts[i]) && ',' !in ts[i]
    ensures SplitAndTidy(Some(Join(ts, ", "))) == ts
  {
    var j := Join(ts, ", ");
    if ts != [] {
      JoinStartsWithFirst(ts, ", ");
      TidyJoin(ts);
      SplitAndTidyText(j);
    } else {
      assert j == "";
    }
  }

  /** On non-empty text, the tokens are the non-empty tidy pieces. */
  lemma SplitAndTidyText(s: string)
    requires s != ""
    ensures SplitAndTidy(Some(s)) == NonEmpty(TidyPieces(s))
  {
  }

  /** The tidy pieces of a ", "-join of tokens are those tokens, none of them empty. */
  lemma TidyJoin(ts: seq<string>)
    requires |ts| >= 1
    requires forall i :: 0 <= i < |ts| ==> ts[i] != "" && IsStripped(ts[i]) && ',' !in ts[i]
    ensures NonEmpty(TidyPieces(Join(ts, ", "))) == ts
  {
    TidyPiecesJoinCommaSpace(ts);
    NonEmptyOfNonEmpty(ts);
  }

  /** Joining the tokens with ", " and splitting again gives the same tokens. */
  lemma SplitAndTidyRoundTrip(cell: Cell)
    ensures SplitAndTidy(Some(Join(SplitAndTidy(cell), ", "))) == SplitAndTidy(cell)
  {
    SplitAndTidyJoin(SplitAndTidy(cell));
  }

  /** Where the strict splitter and the converter's splitter agree: on text with no empty piece. */
  lemma SplitAndTidyKeepsOrder(s: string)
    requires s != ""
    ensures SplitAndTidy(Some(s)) == NonEmpty(TidyPieces(s))
    ensures (forall i :: 0 <= i < |TidyPieces(s)| ==> TidyPieces(s)[i] != "") ==> SplitAndTidy(Some(s)) == TidyPieces(s)
  {
    SplitAndTidyText(s);
    var pieces := TidyPieces(s);
    if forall i :: 0 <= i < |pieces| ==> pieces[i] != "" {
      NonEmptyOfNonEmpty(pieces);
    }
  }

  /** `get_template_version`: cell J11 of the "Introduction" sheet, as it is. */
  function GetTemplateVersion(book: Book): (r: Result<Cell, UtilsError>)
    ensures IntroductionSheet !in book <==> r == Failure(VersionUndetermined)
    ensures IntroductionSheet in book ==> r == Success(CellOf(book[IntroductionSheet], 10, 9))
  {
    if IntroductionSheet !in book then Failure(VersionUndetermined)
    else Success(CellOf(book[IntroductionSheet], 10, 9))
  }

  /** `is_supported_template`: success exactly for a known version; the error names both sides. */
  function IsSupportedTemplate(book: Book): (r: Result<bool, UtilsError>)
    ensures r.Success? <==> IntroductionSheet in book && IsKnownVersion(CellOf(book[IntroductionSheet], 10, 9))
    ensures r.Success? ==> r.value
    ensures IntroductionSheet !in book ==> r == Failure(VersionUndetermined)
    ensures IntroductionSheet in book && r.Failure? ==>
      r.error == UnsupportedVersion(KnownTemplateVersions, CellOf(book[IntroductionSheet], 10, 9))
  {
    var version := GetTemplateVersion(book);
    if version.Failure? then Failure(version.error)
    else if !IsKnownVersion(version.value) then Failure(UnsupportedVersion(KnownTemplateVersions, version.value))
    else Success(true)
  }

  /** `v in KNOWN_TEMPLATE_VERSIONS` for a cell value: only text can match. */
  predicate IsKnownVersion(c: Cell) {
    c.Some? && c.value in KnownTemplateVersions
  }

  /** The suffix gate of `load_workbook` and `load_template`. */
  predicate IsXlsxPath(path: string) {
    Lower(Suffix(FileName(path))) in ExcelFileEndings
  }

  /** The gate ignores case: a path passes exactly when its lower-cased form does. */
  lemma XlsxGateIgnoresCase(path: string)
    ensures IsXlsxPath(Lower(path)) == IsXlsxPath(path)
  {
    FileNameLower(path);
    SuffixLower(FileName(path));
    LowerIdempotent(Suffix(FileName(path)));
  }

  /** `load_workbook`: the workbook read from the file (an input here) once the suffix is ".xlsx". */
  function LoadWorkbook(path: string, contents: Book): (r: Result<Book, UtilsError>)
    ensures r.Success? <==> IsXlsxPath(path)
    ensures r.Success? ==> r.value == contents
    ensures r.Failure? ==> r.error == NotXlsx
  {
    if !IsXlsxPath(path) then Failure(NotXlsx) else Success(contents)
  }

  /** `load_template`: the same suffix gate, then the version in J11 must be the latest one. */
  function LoadTemplate(path: string, contents: Book): (r: Result<Book, UtilsError>)
    ensures r.Success? <==> IsXlsxPath(path) && GetTemplateVersion(contents) == Success(Some(LatestTemplate))
    ensures r.Success? ==> r.value == contents
    ensures !IsXlsxPath(path) ==> r == Failure(TemplateNotXlsx)
    ensures IsXlsxPath(path) && IntroductionSheet !in contents ==> r == Failure(VersionUndetermined)
  {
    if !IsXlsxPath(path) then Failure(TemplateNotXlsx)
    else
      var version := GetTemplateVersion(contents);
      if version.Failure? then Failure(version.error)
      else if version.value != Some(LatestTemplate) then Failure(TemplateNotLatest(LatestTemplate))
      else Success(contents)
  }

  /** The file names `has_file_in_multiple_formats` compares: RDF or xlsx files, extension removed. */
  function FileRoots(files: seq<string>): (r: seq<string>)
    ensures |r| <= |files|
  {
    if files == [] then []
    else
      var rest := FileRoots(files[1..]);
      if EndsWithAny(files[0], KnownFileEndings) then [SplitextRoot(files[0])] + rest else rest
  }

  /** The repeated occurrences of `xs`: every element equal to one before it, in order. */
  function Repeats(xs: seq<string>): (r: seq<string>)
    ensures |r| <= |xs|
  {
    if xs == [] then []
    else
      var init := xs[..|xs| - 1];
      Repeats(init) + (if xs[|xs| - 1] in init then [xs[|xs| - 1]] else [])
  }

  /**
   * `has_file_in_multiple_formats` over the listing of the directory (a parameter here):
   * `None` stands for `False`; otherwise every repeat occurrence, found by a pass with a `seen` set.
   */
  method HasFileInMultipleFormats(files: seq<string>) returns (r: Option<seq<string>>)
    ensures r.None? <==> Distinct(FileRoots(files))
    ensures r.Some? ==> r.value == Repeats(FileRoots(files)) && r.value != []
  {
    var names := FileRoots(files);
    if Distinct(names) {
      return None;
    }
    var seen: set<string> := {};
    var out: seq<string> := [];
    var i := 0;
    while i < |names|
      invariant i <= |names|
      invariant seen == set k | 0 <= k < i :: names[k]
      invariant out == Repeats(names[..i])
    {
      assert names[..i + 1][..i] == names[..i];
      assert names[i] in names[..i] <==> names[i] in seen;
      if names[i] in seen {
        out := out + [names[i]];
      }
      seen := seen + {names[i]};
      i := i + 1;
    }
    assert names[..i] == names;
    RepeatsEmptyIffDistinct(names);
    return Some(out);
  }

  /** No repeat occurrence exactly when all names differ. */
  lemma {:induction false} RepeatsEmptyIffDistinct(xs: seq<string>)
    ensures Repeats(xs) == [] <==> Distinct(xs)
    decreases |xs|
  {
    if xs != [] {
      var init := xs[..|xs| - 1];
      RepeatsEmptyIffDistinct(init);
      if Distinct(xs) {
        assert Distinct(init);
        assert xs[|xs| - 1] !in init;
      } else if Distinct(init) {
        var i, j :| 0 <= i < j < |xs| && xs[i] == xs[j];
        assert j == |xs| - 1 && init[i] == xs[i];
      }
    }
  }

  /** Occurrences of `x` in `xs`. */
  function Occurrences(xs: seq<string>, x: string): nat {
    if xs == [] then 0 else (if xs[0] == x then 1 else 0) + Occurrences(xs[1..], x)
  }

  /** A name seen k times contributes k - 1 repeat entries. */
  lemma {:induction false} RepeatsCount(xs: seq<string>, x: string)
    requires x in xs
    ensures Occurrences(Repeats(xs), x) == Occurrences(xs, x) - 1
    decreases |xs|
  {
    var init := xs[..|xs| - 1];
    var last := xs[|xs| - 1];
    assert xs == init + [last];
    OccurrencesAppend(init, [last], x);
    var added := if last in init then [last] else [];
    OccurrencesAppend(Repeats(init), added, x);
    if x in init {
      RepeatsCount(init, x);
    } else {
      OccurrencesZero(init, x);
      OccurrencesZero(Repeats(init), x);
    }
  }

  lemma {:induction false} OccurrencesAppend(a: seq<string>, b: seq<string>, x: string)
    ensures Occurrences(a + b, x) == Occurrences(a, x) + Occurrences(b, x)
    decreases |a|
  {
    if a == [] {
      assert a + b == b;
    } else {
      assert (a + b)[1..] == a[1..] + b;
      OccurrencesAppend(a[1..], b, x);
    }
  }

  lemma {:induction false} OccurrencesZero(xs: seq<string>, x: string)
    requires x !in xs
    ensures Occurrences(xs, x) == 0
    ensures x !in Repeats(xs)
    decreases |xs|
  {
    if xs != [] {
      assert xs[1..] == xs[1..] && forall y :: y in xs[1..] ==> y in xs;
      OccurrencesZero(xs[1..], x);
      var init := xs[..|xs| - 1];
      assert forall y :: y in init ==> y in xs;
      OccurrencesZero(init, x);
    }
  }
}
