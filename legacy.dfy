/**
 * The older pre-processing commands of `vocexcel_4cat.py`: `is_excel_file_available`, `add_IRI`
 * and `add_related`. They work like the passes of `wrapper.py` on a loaded `Workbook`; they differ
 * in the guard for an empty base IRI, the missing "-coll" suffix and the output name, which is built
 * from the input name here rather than passed in. Loading and saving the file stay outside.
 */
module Legacy {
  import opened Wrappers
  import opened Strings
  import opened Paths
  import opened Sheets
  import opened Utils
  import opened Wrapper

  /** The exceptions the two commands raise before they save. */
  datatype LegacyError =
    | SheetMissing(name: string)       // the `KeyError` of `wb[name]`
    | BaseIriMissing                   // `None.endswith` on an empty cell B2 of "Concept Scheme"
    | NoExtension(path: string)        // the format string gets one part from `rsplit(".", 1)`

  // ---------------------------------------------------------------------------------------------
  // is_excel_file_available

  /**
   * `is_excel_file_available`: no name, or a lower-cased suffix that does not end with an Excel
   * ending, is refused before `os.path.exists` (the file system, a parameter here) is asked.
   */
  function IsExcelFileAvailable(fname: Option<string>, onDisk: string -> bool): (r: bool)
    ensures fname.None? ==> !r
    ensures fname.Some? ==> (r <==> Lower(Suffix(FileName(fname.value))) == ".xlsx" && onDisk(fname.value))
  {
    if fname.None? then false
    else
      var suffix := Lower(Suffix(FileName(fname.value)));
      SuffixEndsWithXlsx(FileName(fname.value));
      assert EndsWithAny(suffix, ExcelFileEndings) <==> EndsWith(suffix, ".xlsx") by {
        assert |ExcelFileEndings| == 1 && ExcelFileEndings[0] == ".xlsx";
      }
      if !EndsWithAny(suffix, ExcelFileEndings) then false
      else onDisk(fname.value)
  }

  /** A suffix holds its only dot in front, so it ends with ".xlsx" exactly when it is ".xlsx". */
  lemma SuffixEndsWithXlsx(name: string)
    ensures EndsWith(Lower(Suffix(name)), ".xlsx") <==> Lower(Suffix(name)) == ".xlsx"
  {
    var s := Suffix(name);
    var l := Lower(s);
    StemSuffix(name);
    if s != "" {
      forall k | 0 < k < |s| ensures l[k] != '.' {
        assert s[1..][k - 1] == s[k];
      }
    }
    if EndsWith(l, ".xlsx") {
      assert l[|l| - 5..][0] == '.';
      assert l[|l| - 5] == '.';
    }
  }

  /** The legacy gate agrees with the suffix gate of `load_workbook` on every existing file. */
  lemma AvailableMeansLoadable(p: string, onDisk: string -> bool)
    ensures IsExcelFileAvailable(Some(p), onDisk) <==> IsXlsxPath(p) && onDisk(p)
  {
    assert ExcelFileEndings == [".xlsx"];
  }

  // ---------------------------------------------------------------------------------------------
  // The output name

  /** `"%s<tag>.%s" % tuple(str(fpath).rsplit(".", 1))`: the tag goes in front of the last dot. */
  function OutputName(path: string, tag: string): (r: Result<string, LegacyError>)
    ensures r.Failure? <==> '.' !in path
    ensures r.Failure? ==> r.error == NoExtension(path)
  {
    var i := RFind(path, '.');
    if i < 0 then
      assert forall k :: 0 <= k < |path| ==> path[k] != '.';
      Failure(NoExtension(path))
    else Success(path[..i] + tag + "." + path[i + 1..])
  }

  /**
   * With a tag free of dots, the output name keeps everything up to the last dot and everything
   * after it, and puts the tag in between; so it differs from the input.
   */
  lemma OutputNameKeepsExtension(path: string, tag: string)
    requires '.' !in tag && '.' in path
    ensures var i := RFind(path, '.'); var out := OutputName(path, tag).value;
            i >= 0 && RFind(out, '.') == i + |tag|
            && out[..i] == path[..i] && out[i..i + |tag|] == tag && out[i + |tag| + 1..] == path[i + 1..]
    ensures tag != "" ==> OutputName(path, tag).value != path
  {
    var i := RFind(path, '.');
    var out := OutputName(path, tag).value;
    assert out == path[..i] + tag + "." + path[i + 1..];
    assert out[i + |tag|] == '.';
    assert out[i + |tag| + 1..] == path[i + 1..];
    forall k | i + |tag| < k < |out| ensures out[k] != '.' {
      assert out[k] == path[k - |tag|];
    }
    RFindLast(out, '.', i + |tag|);
    assert out[..i] == path[..i];
    assert out[i..i + |tag|] == tag;
    assert |out| == |path| + |tag|;
  }

  // ---------------------------------------------------------------------------------------------
  // The two commands

  /** Cell B2 of "Concept Scheme", the base IRI. */
  function BaseCell(book: Book): Cell
    requires ConceptSchemeSheet in book
  {
    CellOf(book[ConceptSchemeSheet], 1, 1)
  }

  /**
   * The older `add_IRI`: as in `wrapper.py` but without "-coll" on the Collections sheet, and an
   * empty B2 fails instead of giving the base "". A command that fails saves nothing, so the model
   * leaves the workbook as it was. On success it returns the name the file is saved under.
   */
  method AddIri(wb: Workbook, fpath: string, slug: Slugify) returns (r: Result<string, LegacyError>)
    modifies wb
    ensures r.Success? <==> (ConceptSchemeSheet in old(wb.sheets) && BaseCell(old(wb.sheets)).Some?
                             && ConceptsSheet in old(wb.sheets) && CollectionsSheet in old(wb.sheets) && '.' in fpath)
    ensures ConceptSchemeSheet !in old(wb.sheets) ==> r == Failure(SheetMissing(ConceptSchemeSheet))
    ensures ConceptSchemeSheet in old(wb.sheets) && BaseCell(old(wb.sheets)).None? ==> r == Failure(BaseIriMissing)
    ensures r.Failure? ==> wb.sheets == old(wb.sheets)
    ensures r.Success? ==> r == OutputName(fpath, "_i")
    ensures r.Success? ==> wb.sheets == IriPasses(old(wb.sheets), IriBase(BaseCell(old(wb.sheets))), "", slug)
  {
    if ConceptSchemeSheet !in wb.sheets {
      return Failure(SheetMissing(ConceptSchemeSheet));
    }
    var b2 := BaseCell(wb.sheets);
    if b2.None? {
      return Failure(BaseIriMissing);
    }
    if ConceptsSheet !in wb.sheets {
      return Failure(SheetMissing(ConceptsSheet));
    }
    if CollectionsSheet !in wb.sheets {
      return Failure(SheetMissing(CollectionsSheet));
    }
    r := OutputName(fpath, "_i");
    if r.Success? {
      wb.FillIris(IriBase(b2), "", slug);
    }
  }

  /** The older `add_related` is the pass of `wrapper.py`; it returns the name the file is saved under. */
  method AddRelated(wb: Workbook, fpath: string, slug: Slugify) returns (r: Result<string, LegacyError>)
    modifies wb
    ensures r.Success? <==> ConceptsSheet in old(wb.sheets) && CollectionsSheet in old(wb.sheets) && '.' in fpath
    ensures ConceptsSheet !in old(wb.sheets) ==> r == Failure(SheetMissing(ConceptsSheet))
    ensures r.Failure? ==> wb.sheets == old(wb.sheets)
    ensures r.Success? ==> r == OutputName(fpath, "_r")
    ensures r.Success? ==> wb.sheets == AddRelatedBook(old(wb.sheets), slug)
  {
    if ConceptsSheet !in wb.sheets {
      return Failure(SheetMissing(ConceptsSheet));
    }
    if CollectionsSheet !in wb.sheets {
      return Failure(SheetMissing(CollectionsSheet));
    }
    r := OutputName(fpath, "_r");
    if r.Success? {
      var e := wb.AddRelated(slug);
    }
  }

  /**
   * On a workbook where both versions run, they write the same Concepts sheet; the Collections
   * sheets differ only by the suffix of the new IRIs.
   */
  lemma SameConceptsAsWrapper(book: Book, slug: Slugify)
    requires ConceptSchemeSheet in book && ConceptsSheet in book && CollectionsSheet in book
    requires BaseCell(book).Some?
    ensures var legacy := IriPasses(book, IriBase(BaseCell(book)), "", slug);
            legacy[ConceptsSheet] == AddIriBook(book, slug)[ConceptsSheet]
    ensures var legacy := IriPasses(book, IriBase(BaseCell(book)), "", slug);
            var base := IriBase(BaseCell(book));
            var c := IriSheet(book[ConceptsSheet], base, "", slug, 0).1;
            legacy[CollectionsSheet] == IriSheet(book[CollectionsSheet], base, "", slug, c).0
            && AddIriBook(book, slug)[CollectionsSheet] == IriSheet(book[CollectionsSheet], base, "-coll", slug, c).0
  {
  }
}
