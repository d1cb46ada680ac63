/**
 * The workbook passes of `wrapper.py`: `add_IRI`, `add_related`, `check`, the undefined-child check
 * of `children_to_indent`, and `may_overwrite`. A loaded workbook is a `Workbook` object whose sheets
 * the passes update in place; saving it is left to the caller. `slugify` is a parameter.
 */
module Wrapper {
  import opened Wrappers
  import opened Strings
  import opened Paths
  import opened Dicts
  import opened Sheets
  import opened RowScan

  /** `django.utils.text.slugify`, which the model does not look into. */
  type Slugify = string -> string

  datatype PassError =
    | MissingSheet(name: string)   // the `KeyError` of `wb[name]`
    | UndefinedChild(iri: string)  // "Child-concept with URI ... is never defined."

  const ConceptSchemeSheet := "Concept Scheme"
  const ConceptsSheet := "Concepts"
  const CollectionsSheet := "Collections"

  /** The first of `names`, in order, that the workbook lacks. */
  function FirstMissing(book: Book, names: seq<string>): (r: Option<string>)
    ensures r.None? <==> forall i :: 0 <= i < |names| ==> names[i] in book
    ensures r.Some? ==> exists i :: 0 <= i < |names| && names[i] == r.value && r.value !in book
                                    && forall j :: 0 <= j < i ==> names[j] in book
  {
    if names == [] then None
    else if names[0] !in book then Some(names[0])
    else
      var r := FirstMissing(book, names[1..]);
      assert forall i :: 1 <= i < |names| ==> names[i] == names[1..][i - 1];
      r
  }

  function MissingError(book: Book, names: seq<string>): Option<PassError> {
    match FirstMissing(book, names)
    case None => None
    case Some(n) => Some(MissingSheet(n))
  }

  /** The text of a cell, "" for `None`. */
  function Text(c: Cell): string {
    if c.Some? then c.value else ""
  }

  // ---------------------------------------------------------------------------------------------
  // The row loop of every pass: rows from 3 on, stopping by the rule of `RowScan`

  /** The rows a pass iterates over: row 3 (index 2) and after. */
  function Body(ws: Sheet): (r: seq<Row>)
    ensures |r| == if |ws| <= 2 then 0 else |ws| - 2
    ensures forall i :: 0 <= i < |r| ==> r[i] == ws[i + 2]
  {
    if |ws| <= 2 then [] else ws[2..]
  }

  function KindsOf(ws: Sheet, kind: Row -> Kind): (r: seq<Kind>)
    ensures |r| == |Body(ws)| && forall i :: 0 <= i < |r| ==> r[i] == kind(ws[i + 2])
  {
    seq(|Body(ws)|, i requires 0 <= i < |Body(ws)| => kind(Body(ws)[i]))
  }

  /** How many rows from row 3 on the pass handles before it stops. */
  function Reach(ws: Sheet, kind: Row -> Kind, counter: nat, resetOnBreak: bool): (r: nat)
    ensures r <= |Body(ws)|
  {
    Scan(KindsOf(ws, kind), counter, resetOnBreak).0
  }

  /** The empty-row counter when the pass is over. */
  function CounterAfter(ws: Sheet, kind: Row -> Kind, counter: nat, resetOnBreak: bool): nat {
    Scan(KindsOf(ws, kind), counter, resetOnBreak).1
  }

  /** `ws` after `update` was applied to each row the pass acts on among the first `n` rows from row 3. */
  function Updated(ws: Sheet, kind: Row -> Kind, update: Row -> Row, n: nat): (r: Sheet)
    ensures |r| == |ws|
  {
    seq(|ws|, k requires 0 <= k < |ws| => if 2 <= k < 2 + n && kind(ws[k]) == Acted then update(ws[k]) else ws[k])
  }

  /** A cell after a pass: rewritten by `update` on the rows the pass acts on, kept elsewhere. */
  lemma UpdatedCell(ws: Sheet, kind: Row -> Kind, update: Row -> Row, n: nat, k: nat, c: nat)
    ensures CellOf(Updated(ws, kind, update, n), k, c)
            == if k < |ws| && 2 <= k < 2 + n && kind(ws[k]) == Acted then CellAt(update(ws[k]), c) else CellOf(ws, k, c)
  {
  }

  /** The loop state after `i` rows: the scan of the rest finishes the scan of the whole. */
  ghost predicate ScanSoFar(kinds: seq<Kind>, counter0: nat, rb: bool, i: nat, counter: nat)
    requires i <= |kinds|
  {
    Scan(kinds, counter0, rb) == (i + Scan(kinds[i..], counter, rb).0, Scan(kinds[i..], counter, rb).1)
  }

  /**
   * The loop of a pass that writes cells: `update` on every row it acts on, until it stops.
   * `counter0` is the empty-row counter left by the loop before.
   */
  method FillRows(ws: Sheet, kind: Row -> Kind, update: Row -> Row, counter0: nat, rb: bool)
    returns (out: Sheet, counter: nat)
    ensures out == Updated(ws, kind, update, Reach(ws, kind, counter0, rb))
    ensures counter == CounterAfter(ws, kind, counter0, rb)
  {
    ghost var kinds := KindsOf(ws, kind);
    out := ws;
    counter := counter0;
    var i := 0;
    assert kinds[0..] == kinds;
    while 2 + i < |ws|
      invariant i <= |kinds| && ScanSoFar(kinds, counter0, rb, i, counter)
      invariant out == Updated(ws, kind, update, i)
    {
      var row := ws[2 + i];
      ghost var before := counter;
      if kind(row) == Blank && counter >= 2 {
        ScanStops(kinds, counter0, rb, i, counter);
        if rb {
          counter := 0;
        }
        return;
      }
      UpdatedStep(ws, kind, update, i);
      if kind(row) == Acted {
        out := out[2 + i := update(row)];
        counter := 0;
      } else if kind(row) == Blank {
        counter := counter + 1;
      }
      ScanAdvances(kinds, counter0, rb, i, before, counter);
      i := i + 1;
    }
    ScanDone(kinds, counter0, rb, i, counter);
  }

  /** A row that is not the stop carries the loop state on to the next row. */
  lemma ScanAdvances(kinds: seq<Kind>, counter0: nat, rb: bool, i: nat, counter: nat, next: nat)
    requires i < |kinds| && ScanSoFar(kinds, counter0, rb, i, counter)
    requires kinds[i] != Blank || counter < 2
    requires next == match kinds[i] case Acted => 0 case Blank => counter + 1 case Other | Read => counter
    ensures ScanSoFar(kinds, counter0, rb, i + 1, next)
  {
    assert kinds[i..][1..] == kinds[i + 1..];
  }

  /** The stop: an empty row met with the counter at 2. */
  lemma ScanStops(kinds: seq<Kind>, counter0: nat, rb: bool, i: nat, counter: nat)
    requires i < |kinds| && ScanSoFar(kinds, counter0, rb, i, counter)
    requires kinds[i] == Blank && counter >= 2
    ensures Scan(kinds, counter0, rb) == (i, if rb then 0 else counter)
  {
  }

  /** One more row of `Updated`. */
  lemma UpdatedStep(ws: Sheet, kind: Row -> Kind, update: Row -> Row, i: nat)
    requires 2 + i < |ws|
    ensures Updated(ws, kind, update, i + 1)
            == if kind(ws[2 + i]) == Acted then Updated(ws, kind, update, i)[2 + i := update(ws[2 + i])]
               else Updated(ws, kind, update, i)
  {
  }

  /** At the last row the rows handled are all rows. */
  lemma ScanDone(kinds: seq<Kind>, counter0: nat, rb: bool, i: nat, counter: nat)
    requires i == |kinds| && ScanSoFar(kinds, counter0, rb, i, counter)
    ensures Scan(kinds, counter0, rb) == (i, counter)
  {
    assert kinds[i..] == [];
  }

  /** The dict a pass fills from the rows it acts on, `d[key] = value` per row, in row order. */
  function Collected<V>(rows: seq<Row>, kind: Row -> Kind, entry: Row -> (string, V)): (r: Dict<string, V>)
    ensures DistinctKeys(r)
    ensures forall i :: 0 <= i < |r| ==> ActedKey(rows, kind, entry, r[i].0)
  {
    if rows == [] then []
    else
      var init := rows[..|rows| - 1];
      var d := Collected(init, kind, entry);
      var last := rows[|rows| - 1];
      var r := if Taken(kind(last)) then Put(d, entry(last).0, entry(last).1) else d;
      CollectedKeysStep(rows, kind, entry, d, r);
      r
  }

  /** Some row of `rows` that the pass acts on has the key `k`. */
  ghost predicate ActedKey<V>(rows: seq<Row>, kind: Row -> Kind, entry: Row -> (string, V), k: string) {
    exists j :: 0 <= j < |rows| && Taken(kind(rows[j])) && entry(rows[j]).0 == k
  }

  /** Every key of one more step of `Collected` comes from a row the pass acts on. */
  lemma CollectedKeysStep<V>(rows: seq<Row>, kind: Row -> Kind, entry: Row -> (string, V), d: Dict<string, V>, r: Dict<string, V>)
    requires rows != []
    requires forall i :: 0 <= i < |d| ==> ActedKey(rows[..|rows| - 1], kind, entry, d[i].0)
    requires forall i :: 0 <= i < |r| ==> r[i] in d || (Taken(kind(rows[|rows| - 1])) && r[i].0 == entry(rows[|rows| - 1]).0)
    ensures forall i :: 0 <= i < |r| ==> ActedKey(rows, kind, entry, r[i].0)
  {
    var init := rows[..|rows| - 1];
    forall i | 0 <= i < |r| ensures ActedKey(rows, kind, entry, r[i].0) {
      if r[i] in d {
        var t :| 0 <= t < |d| && d[t] == r[i];
        assert ActedKey(init, kind, entry, d[t].0);
        var j :| 0 <= j < |init| && Taken(kind(init[j])) && entry(init[j]).0 == d[t].0;
        assert init[j] == rows[j];
      } else {
        var j := |rows| - 1;
        assert Taken(kind(rows[j])) && entry(rows[j]).0 == r[i].0;
      }
    }
  }

  /** The value a key ends with: that of the last row the pass acts on with that key. */
  function LastEntry<V>(rows: seq<Row>, kind: Row -> Kind, entry: Row -> (string, V), key: string): Option<V> {
    if rows == [] then None
    else
      var last := rows[|rows| - 1];
      if Taken(kind(last)) && entry(last).0 == key then Some(entry(last).1)
      else LastEntry(rows[..|rows| - 1], kind, entry, key)
  }

  /** A later row overwrites an earlier one with the same key; a key no row has stays absent. */
  lemma {:induction false} CollectedLastWins<V>(rows: seq<Row>, kind: Row -> Kind, entry: Row -> (string, V), key: string)
    ensures Get(Collected(rows, kind, entry), key) == LastEntry(rows, kind, entry, key)
    decreases |rows|
  {
    if rows != [] {
      CollectedLastWins(rows[..|rows| - 1], kind, entry, key);
    }
  }

  /** The loop of a pass that reads rows into a dict, until it stops. */
  method CollectRows<V>(ws: Sheet, kind: Row -> Kind, entry: Row -> (string, V), counter0: nat, rb: bool)
    returns (d: Dict<string, V>, counter: nat)
    ensures d == Collected(Body(ws)[..Reach(ws, kind, counter0, rb)], kind, entry)
    ensures counter == CounterAfter(ws, kind, counter0, rb)
  {
    ghost var kinds := KindsOf(ws, kind);
    ghost var body := Body(ws);
    d := [];
    counter := counter0;
    var i := 0;
    assert kinds[0..] == kinds;
    while 2 + i < |ws|
      invariant i <= |kinds| && ScanSoFar(kinds, counter0, rb, i, counter)
      invariant d == Collected(body[..i], kind, entry)
    {
      var row := ws[2 + i];
      ghost var before := counter;
      if kind(row) == Blank && counter >= 2 {
        ScanStops(kinds, counter0, rb, i, counter);
        if rb {
          counter := 0;
        }
        return;
      }
      CollectedStep(body, kind, entry, i);
      if Taken(kind(row)) {
        var e := entry(row);
        d := Put(d, e.0, e.1);
      }
      if kind(row) == Acted {
        counter := 0;
      } else if kind(row) == Blank {
        counter := counter + 1;
      }
      ScanAdvances(kinds, counter0, rb, i, before, counter);
      i := i + 1;
    }
    ScanDone(kinds, counter0, rb, i, counter);
    assert body[..i] == body;
  }

  /** One more row of `Collected`. */
  lemma CollectedStep<V>(rows: seq<Row>, kind: Row -> Kind, entry: Row -> (string, V), i: nat)
    requires i < |rows|
    ensures Collected(rows[..i + 1], kind, entry)
            == if Taken(kind(rows[i])) then Put(Collected(rows[..i], kind, entry), entry(rows[i]).0, entry(rows[i]).1)
               else Collected(rows[..i], kind, entry)
  {
    var pre := rows[..i + 1];
    assert |pre| == i + 1;
    assert pre[..i] == rows[..i];
    assert pre[i] == rows[i];
  }

  /** Three empty rows (for the pass) from row `k` on end the pass: no row after them changes. */
  lemma UpdatedStopsAtThirdBlank(ws: Sheet, kind: Row -> Kind, update: Row -> Row, counter: nat, rb: bool, k: nat)
    requires 2 <= k && k + 2 < |ws|
    requires kind(ws[k]) == Blank && kind(ws[k + 1]) == Blank && kind(ws[k + 2]) == Blank
    ensures forall j :: k + 2 <= j < |ws| ==> Updated(ws, kind, update, Reach(ws, kind, counter, rb))[j] == ws[j]
  {
    StopsByThirdBlank(KindsOf(ws, kind), counter, rb, k - 2);
  }

  // ---------------------------------------------------------------------------------------------
  // add_IRI

  /** The base IRI from cell B2 of "Concept Scheme": `None` gives "", and a missing final "/" is added. */
  function IriBase(b2: Cell): (r: string)
    ensures b2.None? ==> r == ""
    ensures b2.Some? ==> StartsWith(r, b2.value) && EndsWith(r, "/") && |r| <= |b2.value| + 1
    ensures b2.Some? && EndsWith(b2.value, "/") ==> r == b2.value
  {
    match b2
    case None => ""
    case Some(s) => if EndsWith(s, "/") then s else s + "/"
  }

  /** How `add_IRI` sees a row: it writes where A is falsy and B truthy; A and B both `None` is empty. */
  function IriKind(row: Row): Kind {
    if !Truthy(CellAt(row, 0)) && Truthy(CellAt(row, 1)) then Acted
    else if CellAt(row, 0).None? && CellAt(row, 1).None? then Blank
    else Other
  }

  /** The IRI made for a row: base, slug of the preferred label, sheet suffix. */
  function IriOf(base: string, suffix: string, slug: Slugify, row: Row): string {
    base + slug(Text(CellAt(row, 1))) + suffix
  }

  function IriUpdate(base: string, suffix: string, slug: Slugify): Row -> Row {
    row => SetCell(row, 0, Some(IriOf(base, suffix, slug, row)))
  }

  /** One sheet of `add_IRI` and the counter it leaves. */
  function IriSheet(ws: Sheet, base: string, suffix: string, slug: Slugify, counter: nat): (Sheet, nat) {
    (Updated(ws, IriKind, IriUpdate(base, suffix, slug), Reach(ws, IriKind, counter, false)),
     CounterAfter(ws, IriKind, counter, false))
  }

  /** Both sheets, Concepts then Collections, sharing one counter. */
  function IriPasses(book: Book, base: string, collSuffix: string, slug: Slugify): Book
    requires ConceptsSheet in book && CollectionsSheet in book
  {
    var (concepts, c) := IriSheet(book[ConceptsSheet], base, "", slug, 0);
    var (collections, _) := IriSheet(book[CollectionsSheet], base, collSuffix, slug, c);
    book[ConceptsSheet := concepts][CollectionsSheet := collections]
  }

  /** What `add_IRI` leaves in the workbook. */
  function AddIriBook(book: Book, slug: Slugify): Book
    requires ConceptSchemeSheet in book && ConceptsSheet in book && CollectionsSheet in book
  {
    IriPasses(book, IriBase(CellOf(book[ConceptSchemeSheet], 1, 1)), "-coll", slug)
  }

  /**
   * Only cell A of the rows the pass acts on, before it stops, changes, and it gets base + slug(B)
   * + suffix; every other cell keeps its value.
   */
  lemma IriSheetCells(ws: Sheet, base: string, suffix: string, slug: Slugify, counter: nat, k: nat, c: nat)
    ensures CellOf(IriSheet(ws, base, suffix, slug, counter).0, k, c) ==
            if c == 0 && 2 <= k < 2 + Reach(ws, IriKind, counter, false) && k < |ws|
               && !Truthy(CellAt(ws[k], 0)) && Truthy(CellAt(ws[k], 1))
            then Some(base + slug(CellAt(ws[k], 1).value) + suffix)
            else CellOf(ws, k, c)
  {
    var n := Reach(ws, IriKind, counter, false);
    assert IriSheet(ws, base, suffix, slug, counter).0 == Updated(ws, IriKind, IriUpdate(base, suffix, slug), n);
    UpdatedCell(ws, IriKind, IriUpdate(base, suffix, slug), n, k, c);
  }

  /** The counter is not reset between the sheets: after the Concepts sheet ended on its third empty
   * row, an empty row 3 on the Collections sheet ends that sheet at once. */
  lemma CollectionsStopAtOnce(book: Book, slug: Slugify)
    requires ConceptSchemeSheet in book && ConceptsSheet in book && CollectionsSheet in book
    requires Reach(book[ConceptsSheet], IriKind, 0, false) < |Body(book[ConceptsSheet])|
    requires |book[CollectionsSheet]| > 2 && IriKind(book[CollectionsSheet][2]) == Blank
    ensures AddIriBook(book, slug)[CollectionsSheet] == book[CollectionsSheet]
  {
    BreakKeepsCounter(KindsOf(book[ConceptsSheet], IriKind), 0);
    var ws := book[CollectionsSheet];
    var c := CounterAfter(book[ConceptsSheet], IriKind, 0, false);
    assert Reach(ws, IriKind, c, false) == 0;
  }

  // ---------------------------------------------------------------------------------------------
  // add_related

  /** Rows with A and B truthy are read; A and B both `None` is empty (also the view of `check`). */
  function NamedKind(row: Row): Kind {
    if Truthy(CellAt(row, 0)) && Truthy(CellAt(row, 1)) then Acted
    else if CellAt(row, 0).None? && CellAt(row, 1).None? then Blank
    else Other
  }

  /** `pref_label_lookup[slugify(B)] = A`. */
  function LabelEntry(slug: Slugify): Row -> (string, string) {
    row => (slug(Text(CellAt(row, 1))), Text(CellAt(row, 0)))
  }

  /** The fill loop writes where the target cell is falsy and the by-label cell truthy. */
  function FillKind(target: nat, byLabel: nat): Row -> Kind {
    row => if !Truthy(CellAt(row, target)) && Truthy(CellAt(row, byLabel)) then Acted
           else if CellAt(row, 0).None? && CellAt(row, 1).None? then Blank
           else Other
  }

  /** `pref_label_slugs`: the slug of each stripped label, in label order. */
  function LabelSlugs(labels: seq<string>, slug: Slugify): (r: seq<string>)
    ensures |r| == |labels| && forall i :: 0 <= i < |labels| ==> r[i] == slug(Strip(labels[i]))
  {
    seq(|labels|, i requires 0 <= i < |labels| => slug(Strip(labels[i])))
  }

  /** `found`: the IRIs of the slugs the lookup knows, in slug order; unknown slugs are dropped. */
  function FoundIris(slugs: seq<string>, lookup: Dict<string, string>): (r: seq<string>)
    ensures |r| <= |slugs|
    ensures forall x :: x in r ==> exists i :: 0 <= i < |lookup| && lookup[i].1 == x
  {
    if slugs == [] then []
    else
      var rest := FoundIris(slugs[1..], lookup);
      match Get(lookup, slugs[0])
      case None => rest
      case Some(iri) => [iri] + rest
  }

  /** A single slug gives its IRI when the lookup knows it and nothing otherwise. */
  lemma FoundIrisOne(s: string, lookup: Dict<string, string>)
    ensures s !in Keys(lookup) ==> FoundIris([s], lookup) == []
    ensures s in Keys(lookup) ==> FoundIris([s], lookup) == [Get(lookup, s).value]
  {
    assert [s][1..] == [];
  }

  /** The IRIs of two runs of slugs are those of the first run followed by those of the second. */
  lemma {:induction false} FoundIrisAppend(a: seq<string>, b: seq<string>, lookup: Dict<string, string>)
    ensures FoundIris(a + b, lookup) == FoundIris(a, lookup) + FoundIris(b, lookup)
    decreases |a|
  {
    if a == [] {
      assert a + b == b;
    } else {
      var ab := a + b;
      assert ab[0] == a[0] && ab[1..] == a[1..] + b;
      FoundIrisAppend(a[1..], b, lookup);
      var tail, rb := FoundIris(a[1..], lookup), FoundIris(b, lookup);
      match Get(lookup, a[0])
      case None =>
      case Some(iri) =>
        assert [iri] + (tail + rb) == ([iri] + tail) + rb;
    }
  }

  /** With every slug known, each slug gives exactly its IRI, in order. */
  lemma {:induction false} FoundIrisAllKnown(slugs: seq<string>, lookup: Dict<string, string>)
    requires forall i :: 0 <= i < |slugs| ==> slugs[i] in Keys(lookup)
    ensures |FoundIris(slugs, lookup)| == |slugs|
    ensures forall i :: 0 <= i < |slugs| ==> Some(FoundIris(slugs, lookup)[i]) == Get(lookup, slugs[i])
    decreases |slugs|
  {
    if slugs != [] {
      var r, rest := FoundIris(slugs, lookup), FoundIris(slugs[1..], lookup);
      assert forall i :: 1 <= i < |slugs| ==> slugs[i] == slugs[1..][i - 1];
      FoundIrisAllKnown(slugs[1..], lookup);
      var g := Get(lookup, slugs[0]);
      assert g.Some? && r == [g.value] + rest;
      forall i | 0 <= i < |slugs| ensures Some(r[i]) == Get(lookup, slugs[i]) {
        if i > 0 {
          assert r[i] == rest[i - 1] && slugs[i] == slugs[1..][i - 1];
        }
      }
    }
  }

  /** The text written into the target cell: the found IRIs joined by ", ". */
  function RelatedText(row: Row, byLabel: nat, lookup: Dict<string, string>, slug: Slugify): string {
    Join(FoundIris(LabelSlugs(SplitOn(Text(CellAt(row, byLabel)), ","), slug), lookup), ", ")
  }

  function RelatedUpdate(target: nat, byLabel: nat, lookup: Dict<string, string>, slug: Slugify): Row -> Row {
    row => SetCell(row, target, Some(RelatedText(row, byLabel, lookup, slug)))
  }

  /** The fill writes the joined IRIs into the target cell of a row and keeps its other cells. */
  lemma RelatedUpdateCell(row: Row, target: nat, byLabel: nat, lookup: Dict<string, string>, slug: Slugify, c: nat)
    ensures CellAt(RelatedUpdate(target, byLabel, lookup, slug)(row), c)
            == if c == target then Some(RelatedText(row, byLabel, lookup, slug)) else CellAt(row, c)
  {
  }

  /** The fill acts on a row exactly when its target cell is falsy and its by-label cell truthy. */
  lemma FillKindActed(row: Row, target: nat, byLabel: nat)
    ensures FillKind(target, byLabel)(row) == Acted <==> !Truthy(CellAt(row, target)) && Truthy(CellAt(row, byLabel))
  {
  }

  /** The label lookup of one sheet. */
  function LabelLookup(ws: Sheet, slug: Slugify, counter: nat): Dict<string, string> {
    Collected(Body(ws)[..Reach(ws, NamedKind, counter, true)], NamedKind, LabelEntry(slug))
  }

  /** One sheet of `add_related`: the lookup loop, then the fill loop, and the counter left. */
  function RelatedSheet(ws: Sheet, target: nat, byLabel: nat, slug: Slugify, counter: nat): (Sheet, nat) {
    var lookup := LabelLookup(ws, slug, counter);
    var c := CounterAfter(ws, NamedKind, counter, true);
    var kind := FillKind(target, byLabel);
    (Updated(ws, kind, RelatedUpdate(target, byLabel, lookup, slug), Reach(ws, kind, c, false)),
     CounterAfter(ws, kind, c, false))
  }

  /** Concepts: column G (index 6) from column J (9); Collections: column D (3) from column F (5). */
  function AddRelatedBook(book: Book, slug: Slugify): Book
    requires ConceptsSheet in book && CollectionsSheet in book
  {
    var (concepts, c) := RelatedSheet(book[ConceptsSheet], 6, 9, slug, 0);
    var (collections, _) := RelatedSheet(book[CollectionsSheet], 3, 5, slug, c);
    book[ConceptsSheet := concepts][CollectionsSheet := collections]
  }

  /** A label maps to the IRI of the last row, before the lookup loop stops, that has that label's slug. */
  lemma LookupLastWins(ws: Sheet, slug: Slugify, counter: nat, key: string)
    ensures Get(LabelLookup(ws, slug, counter), key)
            == LastEntry(Body(ws)[..Reach(ws, NamedKind, counter, true)], NamedKind, LabelEntry(slug), key)
  {
    CollectedLastWins(Body(ws)[..Reach(ws, NamedKind, counter, true)], NamedKind, LabelEntry(slug), key);
  }

  /**
   * Only the target cell of the rows the fill loop acts on changes; it gets the joined IRIs of the
   * labels in the by-label cell.
   */
  lemma RelatedSheetCells(ws: Sheet, target: nat, byLabel: nat, slug: Slugify, counter: nat, k: nat, c: nat)
    ensures var lookup := LabelLookup(ws, slug, counter);
            var n := Reach(ws, FillKind(target, byLabel), CounterAfter(ws, NamedKind, counter, true), false);
            CellOf(RelatedSheet(ws, target, byLabel, slug, counter).0, k, c) ==
            if c == target && 2 <= k < 2 + n && k < |ws|
               && !Truthy(CellAt(ws[k], target)) && Truthy(CellAt(ws[k], byLabel))
            then Some(RelatedText(ws[k], byLabel, lookup, slug))
            else CellOf(ws, k, c)
  {
    var lookup := LabelLookup(ws, slug, counter);
    var kind := FillKind(target, byLabel);
    var n := Reach(ws, kind, CounterAfter(ws, NamedKind, counter, true), false);
    var update := RelatedUpdate(target, byLabel, lookup, slug);
    assert RelatedSheet(ws, target, byLabel, slug, counter).0 == Updated(ws, kind, update, n);
    UpdatedCell(ws, kind, update, n, k, c);
    if k < |ws| {
      RelatedUpdateCell(ws[k], target, byLabel, lookup, slug, c);
      FillKindActed(ws[k], target, byLabel);
    }
  }

  // ---------------------------------------------------------------------------------------------
  // check

  /** `f'"{iri}"@{lang.lower()}'` from the stripped cells A and C. */
  function CheckKey(row: Row): string {
    "\"" + Strip(Text(CellAt(row, 0))) + "\"@" + Lower(Strip(Text(CellAt(row, 2))))
  }

  /** The rows `check` compares, as (row number, key); `first` is the number of `rows[0]`. */
  function CheckEntries(rows: seq<Row>, first: nat, key: Row -> string): (r: seq<(nat, string)>)
    ensures |r| <= |rows|
  {
    if rows == [] then []
    else
      var init := CheckEntries(rows[..|rows| - 1], first, key);
      var last := rows[|rows| - 1];
      if NamedKind(last) == Acted then init + [(first + |rows| - 1, key(last))] else init
  }

  function EntryKeys(es: seq<(nat, string)>): (r: seq<string>)
    ensures |r| == |es| && forall i :: 0 <= i < |es| ==> r[i] == es[i].1
  {
    seq(|es|, i requires 0 <= i < |es| => es[i].1)
  }

  /** The row number of the first entry with `key`. */
  function FirstRowOf(es: seq<(nat, string)>, key: string): nat
    requires key in EntryKeys(es)
  {
    es[IndexOf(EntryKeys(es), key)].0
  }

  /** The highlighted pairs: each repeated entry's row, and the row of the first entry with its key. */
  function Marks(es: seq<(nat, string)>): seq<(nat, nat)> {
    if es == [] then []
    else
      var init := es[..|es| - 1];
      var e := es[|es| - 1];
      Marks(init) + (if e.1 in EntryKeys(init) then [(e.0, FirstRowOf(init, e.1))] else [])
  }

  /** The pairs as `check` computes them: the earlier row taken as 3 + the key's place in `seen`. */
  function MarksAsWritten(es: seq<(nat, string)>): seq<(nat, nat)> {
    if es == [] then []
    else
      var init := es[..|es| - 1];
      var e := es[|es| - 1];
      var seen := Dedup(EntryKeys(init));
      MarksAsWritten(init) + (if e.1 in seen then [(e.0, 3 + IndexOf(seen, e.1))] else [])
  }

  /** Entries of the Concepts sheet, from row 3 until the loop stops. */
  function ConceptEntries(ws: Sheet): seq<(nat, string)> {
    CheckEntries(Body(ws)[..Reach(ws, NamedKind, 0, true)], 3, CheckKey)
  }

  datatype CheckReport = CheckReport(code: int, marks: seq<(nat, nat)>)

  lemma EntryKeysAppend(es: seq<(nat, string)>, e: (nat, string))
    ensures EntryKeys(es + [e]) == EntryKeys(es) + [e.1]
    ensures (es + [e])[..|es|] == es
  {
  }

  /** Nothing is highlighted exactly when no key repeats. */
  lemma {:induction false} MarksIffRepeat(es: seq<(nat, string)>)
    ensures Marks(es) == [] <==> Distinct(EntryKeys(es))
    decreases |es|
  {
    if es != [] {
      var init := es[..|es| - 1];
      var e := es[|es| - 1];
      assert es == init + [e];
      EntryKeysAppend(init, e);
      var ks, ks' := EntryKeys(init), EntryKeys(es);
      assert ks' == ks + [e.1];
      MarksIffRepeat(init);
      if e.1 in ks {
        var j := IndexOf(ks, e.1);
        assert ks'[j] == ks'[|es| - 1];
        assert !Distinct(ks');
      } else if !Distinct(ks) {
        var a, b :| 0 <= a < b < |init| && ks[a] == ks[b];
        assert ks'[a] == ks'[b];
        assert !Distinct(ks');
      } else {
        assert Marks(es) == Marks(init);
        forall a, b | 0 <= a < b < |es| ensures ks'[a] != ks'[b] {
          assert ks'[a] == ks[a];
          if b < |es| - 1 {
            assert ks'[b] == ks[b];
          }
        }
      }
    }
  }

  /** Each highlighted pair names an earlier and a later entry with the same key, the earlier one first of its key. */
  lemma {:induction false} MarksPointAtFirst(es: seq<(nat, string)>, m: (nat, nat))
    requires m in Marks(es)
    ensures exists a, b :: 0 <= a < b < |es| && es[a].0 == m.1 && es[b].0 == m.0 && es[a].1 == es[b].1
                           && forall c :: 0 <= c < a ==> es[c].1 != es[a].1
    decreases |es|
  {
    var init := es[..|es| - 1];
    var e := es[|es| - 1];
    EntryKeysAppend(init, e);
    assert es == init + [e];
    if m in Marks(init) {
      MarksPointAtFirst(init, m);
      var a, b :| 0 <= a < b < |init| && init[a].0 == m.1 && init[b].0 == m.0 && init[a].1 == init[b].1
                  && forall c :: 0 <= c < a ==> init[c].1 != init[a].1;
      assert es[a] == init[a] && es[b] == init[b];
      assert forall c :: 0 <= c < a ==> es[c] == init[c];
    } else {
      var a := IndexOf(EntryKeys(init), e.1);
      assert m == (e.0, init[a].0);
      assert es[a] == init[a];
      assert forall c :: 0 <= c < a ==> es[c] == init[c] && EntryKeys(init)[c] == init[c].1;
    }
  }

  // ---------------------------------------------------------------------------------------------
  // The undefined-child check of children_to_indent

  /**
   * `children_to_indent` reads rows with A and B truthy without resetting the counter; every other
   * row counts as empty.
   */
  function ChildKind(row: Row): Kind {
    if Truthy(CellAt(row, 0)) && Truthy(CellAt(row, 1)) then Read else Blank
  }

  /** Children URIs of column G: none when falsy, else the stripped comma-separated parts. */
  function ChildList(g: Cell): (r: seq<string>)
    ensures !Truthy(g) ==> r == []
    ensures Truthy(g) ==> |r| == CountChar(g.value, ',') + 1
  {
    if !Truthy(g) then [] else
      SplitCharCount(g.value, ',');
      StripAll(SplitOn(g.value, ","))
  }

  function ChildEntry(row: Row): (string, seq<string>) {
    (Text(CellAt(row, 0)), ChildList(CellAt(row, 6)))
  }

  /** `concept_children_dict` of the Concepts sheet. */
  function ChildrenOf(ws: Sheet): Dict<string, seq<string>> {
    Collected(Body(ws)[..Reach(ws, ChildKind, 0, true)], ChildKind, ChildEntry)
  }

  /** A row whose G cell has an empty part, such as "a, " or ",", names the child "", which no row defines. */
  lemma EmptyChildNeverDefined(ws: Sheet)
    ensures "" !in Keys(ChildrenOf(ws))
  {
    var d := ChildrenOf(ws);
    assert forall i :: 0 <= i < |d| ==> d[i].0 != "";
  }

  /**
   * Rows 3 to 8: empty, "a" with the child "b", empty, "c", empty, "b". The reading loop never resets
   * the counter, so the empty row 7 is the third and the row defining "b" is never read.
   */
  const SampleChildren: Sheet :=
    [[], [], [], [Some("a"), Some("A"), None, None, None, None, Some("b")], [], [Some("c"), Some("C")], [],
     [Some("b"), Some("B")]]

  /** On the sample sheet the reading loop stops at row 7, and the child "b" is reported undefined. */
  lemma SampleChildrenStopEarly()
    ensures Reach(SampleChildren, ChildKind, 0, true) == 4
    ensures ChildrenOf(SampleChildren) == [("a", ["b"]), ("c", [])]
    ensures !AllDefined(ChildrenOf(SampleChildren))
  {
    SampleChildrenReach();
    SampleChildrenBody();
    var ws := SampleChildren;
    SampleChildEntries();
    SampleChildKinds();
    BlankReadTwice(ws[2..6], ChildKind, ChildEntry);
    SampleDictUndefined();
  }

  /** How the reading loop sees rows 3 to 6 of the sample sheet. */
  lemma SampleChildKinds()
    ensures var ws := SampleChildren;
      ChildKind(ws[2]) == Blank && ChildKind(ws[3]) == Read && ChildKind(ws[4]) == Blank && ChildKind(ws[5]) == Read
  {
  }

  /** The child "b" of the dict read from the sample sheet is not one of its keys. */
  lemma SampleDictUndefined()
    ensures !AllDefined([("a", ["b"]), ("c", [])])
  {
    var d: Dict<string, seq<string>> := [("a", ["b"]), ("c", [])];
    assert AllChildren(d) == ["b"] by {
      assert d[..1] == [("a", ["b"])] && d[..1][..0] == [];
    }
    assert Keys(d) == ["a", "c"];
    assert "b" != "a" && "b" != "c";
    assert AllChildren(d)[0] == "b" && "b" !in Keys(d);
  }

  /** Rows 3 to 6 of the sample sheet. */
  lemma SampleChildrenBody()
    ensures var ws := SampleChildren; Body(ws)[..4] == ws[2..6]
  {
  }

  /** The dict a reading pass fills from an empty row, a read row, an empty row and a read row. */
  lemma BlankReadTwice<V>(rows: seq<Row>, kind: Row -> Kind, entry: Row -> (string, V))
    requires |rows| == 4 && kind(rows[0]) == Blank && kind(rows[1]) == Read && kind(rows[2]) == Blank && kind(rows[3]) == Read
    requires entry(rows[3]).0 != entry(rows[1]).0
    ensures Collected(rows, kind, entry) == [entry(rows[1]), entry(rows[3])]
  {
    var e1 := entry(rows[1]);
    assert Collected(rows[..0], kind, entry) == [] by {
      assert rows[..0] == [];
    }
    BlankRead(rows, kind, entry, 0, []);
    assert [] + [e1] == [e1] && Keys([e1]) == [e1.0];
    BlankRead(rows, kind, entry, 2, [e1]);
    assert rows[..4] == rows;
  }

  /** An empty row then a read row with a new key append that row's entry. */
  lemma BlankRead<V>(rows: seq<Row>, kind: Row -> Kind, entry: Row -> (string, V), i: nat, d: Dict<string, V>)
    requires i + 1 < |rows| && kind(rows[i]) == Blank && kind(rows[i + 1]) == Read
    requires Collected(rows[..i], kind, entry) == d && entry(rows[i + 1]).0 !in Keys(d)
    ensures Collected(rows[..i + 2], kind, entry) == d + [entry(rows[i + 1])]
  {
    CollectedStep(rows, kind, entry, i);
    CollectedStep(rows, kind, entry, i + 1);
    AppendNew(d, entry(rows[i + 1]).0, entry(rows[i + 1]).1);
  }

  /** The reading loop over the sample sheet takes rows 3 to 6 and stops at the empty row 7. */
  lemma SampleChildrenReach()
    ensures Reach(SampleChildren, ChildKind, 0, true) == 4
  {
    var kinds := KindsOf(SampleChildren, ChildKind);
    assert kinds == [Blank, Read, Blank, Read, Blank, Read];
    var k4 := [Blank, Read];
    var k3 := [Read] + k4;
    var k2 := [Blank] + k3;
    var k1 := [Read] + k2;
    assert kinds == [Blank] + k1;
    assert Scan(k4, 2, true) == (0, 0);
    assert Scan(k3, 2, true) == (1, 0) by { assert k3[1..] == k4; }
    assert Scan(k2, 1, true) == (2, 0) by { assert k2[1..] == k3; }
    assert Scan(k1, 1, true) == (3, 0) by { assert k1[1..] == k2; }
    assert Scan(kinds, 0, true) == (4, 0) by { assert kinds[1..] == k1; }
  }

  /** The rows of "a" and "c" as the reading loop records them. */
  lemma SampleChildEntries()
    ensures ChildEntry(SampleChildren[3]) == ("a", ["b"])
    ensures ChildEntry(SampleChildren[5]) == ("c", [])
  {
    var row := SampleChildren[3];
    assert CellAt(row, 0) == Some("a") && CellAt(row, 6) == Some("b");
    SplitNoSep("b", ',');
    StripOfStripped("b");
    assert StripAll(["b"]) == ["b"];
    assert ChildList(Some("b")) == ["b"];
    assert CellAt(SampleChildren[5], 6) == None;
  }

  // ---------------------------------------------------------------------------------------------
  // may_overwrite

  /** `may_overwrite`: refused only without `--no-warn`, when the output exists and is the input file. */
  function MayOverwrite(noWarn: bool, outExists: bool, xlf: string, outfile: string): (r: bool)
    ensures !r <==> !noWarn && outExists && PathParts(xlf) == PathParts(outfile)
                    && StartsWith(xlf, "/") == StartsWith(outfile, "/")
  {
    !(!noWarn && outExists && SamePath(xlf, outfile))
  }

  /** "./name" and "name" are the same file, so writing over it is refused. */
  lemma OverwriteSeesDotPrefix(p: string)
    requires !StartsWith(p, "/")
    ensures !MayOverwrite(false, true, "./" + p, p)
  {
    SamePathDotPrefix(p);
  }

  // ---------------------------------------------------------------------------------------------
  // The workbook

  /** A loaded workbook; the passes update its sheets in place. */
  class Workbook {
    var sheets: Book

    constructor(book: Book)
      ensures sheets == book
    {
      sheets := book;
    }

    /** The two loops of `add_IRI` over Concepts and Collections, with the given base and suffix. */
    method FillIris(base: string, collSuffix: string, slug: Slugify)
      requires ConceptsSheet in sheets && CollectionsSheet in sheets
      modifies this
      ensures sheets == IriPasses(old(sheets), base, collSuffix, slug)
    {
      var concepts, counter := FillRows(sheets[ConceptsSheet], IriKind, IriUpdate(base, "", slug), 0, false);
      var collections, _ := FillRows(sheets[CollectionsSheet], IriKind, IriUpdate(base, collSuffix, slug), counter, false);
      sheets := sheets[ConceptsSheet := concepts][CollectionsSheet := collections];
    }

    /** `add_IRI`: a missing sheet is an error and leaves the workbook as it was. */
    method AddIri(slug: Slugify) returns (r: Option<PassError>)
      modifies this
      ensures r == MissingError(old(sheets), [ConceptSchemeSheet, ConceptsSheet, CollectionsSheet])
      ensures r.None? <==> ConceptSchemeSheet in old(sheets) && ConceptsSheet in old(sheets) && CollectionsSheet in old(sheets)
      ensures r.Some? ==> sheets == old(sheets)
      ensures r.None? ==> sheets == AddIriBook(old(sheets), slug)
    {
      r := MissingError(sheets, [ConceptSchemeSheet, ConceptsSheet, CollectionsSheet]);
      if r.Some? {
        return;
      }
      ghost var names := [ConceptSchemeSheet, ConceptsSheet, CollectionsSheet];
      assert names[0] in sheets && names[1] in sheets && names[2] in sheets;
      var base := IriBase(CellOf(sheets[ConceptSchemeSheet], 1, 1));
      FillIris(base, "-coll", slug);
    }

    /** One sheet of `add_related`. */
    static method RelatedPass(ws: Sheet, target: nat, byLabel: nat, slug: Slugify, counter0: nat)
      returns (out: Sheet, counter: nat)
      ensures (out, counter) == RelatedSheet(ws, target, byLabel, slug, counter0)
    {
      var lookup;
      lookup, counter := CollectRows(ws, NamedKind, LabelEntry(slug), counter0, true);
      out, counter := FillRows(ws, FillKind(target, byLabel), RelatedUpdate(target, byLabel, lookup, slug), counter, false);
    }

    /** `add_related`: a missing sheet is an error and leaves the workbook as it was. */
    method AddRelated(slug: Slugify) returns (r: Option<PassError>)
      modifies this
      ensures r == MissingError(old(sheets), [ConceptsSheet, CollectionsSheet])
      ensures r.None? <==> ConceptsSheet in old(sheets) && CollectionsSheet in old(sheets)
      ensures r.Some? ==> sheets == old(sheets)
      ensures r.None? ==> sheets == AddRelatedBook(old(sheets), slug)
    {
      r := MissingError(sheets, [ConceptsSheet, CollectionsSheet]);
      if r.Some? {
        return;
      }
      ghost var names := [ConceptsSheet, CollectionsSheet];
      assert names[0] in sheets && names[1] in sheets;
      var concepts, counter := RelatedPass(sheets[ConceptsSheet], 6, 9, slug, 0);
      var collections, _ := RelatedPass(sheets[CollectionsSheet], 3, 5, slug, counter);
      sheets := sheets[ConceptsSheet := concepts][CollectionsSheet := collections];
    }

    /**
     * `check`: the code is 1 exactly when an IRI is used twice for one language. Every repeat is
     * highlighted with the row of the key's first use (the row number the source computes is
     * `MarksAsWritten`).
     */
    method Check() returns (r: Result<CheckReport, PassError>)
      ensures r.Failure? <==> ConceptsSheet !in sheets
      ensures r.Failure? ==> r.error == MissingSheet(ConceptsSheet)
      ensures r.Success? ==> r.value.marks == Marks(ConceptEntries(sheets[ConceptsSheet]))
      ensures r.Success? ==> (r.value.code == 1 <==> !Distinct(EntryKeys(ConceptEntries(sheets[ConceptsSheet]))))
      ensures r.Success? ==> (r.value.code == 0 || r.value.code == 1)
    {
      if ConceptsSheet !in sheets {
        return Failure(MissingSheet(ConceptsSheet));
      }
      var marks, failed := CheckRows(sheets[ConceptsSheet], CheckKey);
      return Success(CheckReport(if failed then 1 else 0, marks));
    }

    /** The undefined-child check of `children_to_indent` on the Concepts sheet. */
    method CheckChildrenDefined() returns (r: Option<PassError>)
      ensures ConceptsSheet !in sheets ==> r == Some(MissingSheet(ConceptsSheet))
      ensures ConceptsSheet in sheets ==>
        (r.None? <==> AllDefined(ChildrenOf(sheets[ConceptsSheet])))
      ensures ConceptsSheet in sheets && r.Some? ==>
        var d := ChildrenOf(sheets[ConceptsSheet]);
        r.value.UndefinedChild?
        && exists i :: 0 <= i < |AllChildren(d)| && AllChildren(d)[i] == r.value.iri && r.value.iri !in Keys(d)
                       && forall j :: 0 <= j < i ==> AllChildren(d)[j] in Keys(d)
    {
      if ConceptsSheet !in sheets {
        return Some(MissingSheet(ConceptsSheet));
      }
      var d, _ := CollectRows(sheets[ConceptsSheet], ChildKind, ChildEntry, 0, true);
      assert d == ChildrenOf(sheets[ConceptsSheet]);
      var missing := FirstUndefinedChild(d);
      if missing.Some? {
        return Some(UndefinedChild(missing.value));
      }
      return None;
    }
  }

  /** The loop of `check` over the Concepts sheet, for any key of a row. */
  method CheckRows(ws: Sheet, key: Row -> string) returns (marks: seq<(nat, nat)>, failed: bool)
    ensures marks == Marks(CheckEntries(Body(ws)[..Reach(ws, NamedKind, 0, true)], 3, key))
    ensures failed <==> !Distinct(EntryKeys(CheckEntries(Body(ws)[..Reach(ws, NamedKind, 0, true)], 3, key)))
  {
    ghost var kinds := KindsOf(ws, NamedKind);
    ghost var body := Body(ws);
    var counter := 0;
    var seen: seq<string> := [];
    var firstRows: seq<nat> := [];
    marks, failed := [], false;
    var i := 0;
    assert kinds[0..] == kinds;
    while 2 + i < |ws|
      invariant i <= |kinds| && ScanSoFar(kinds, 0, true, i, counter)
      invariant SeenSoFar(CheckEntries(body[..i], 3, key), seen, firstRows, marks)
      invariant failed <==> marks != []
    {
      if NamedKind(ws[2 + i]) == Blank && counter >= 2 {
        ScanStops(kinds, 0, true, i, counter);
        MarksIffRepeat(CheckEntries(body[..i], 3, key));
        return;
      }
      counter, seen, firstRows, marks, failed := CheckRow(ws, key, i, counter, seen, firstRows, marks, failed);
      i := i + 1;
    }
    ScanDone(kinds, 0, true, i, counter);
    MarksIffRepeat(CheckEntries(body[..i], 3, key));
  }

  /** One row of the loop of `check` that does not stop it. */
  method CheckRow(ws: Sheet, key: Row -> string, i: nat, counter: nat, seen: seq<string>, firstRows: seq<nat>,
                  marks: seq<(nat, nat)>, failed: bool)
    returns (counter2: nat, seen2: seq<string>, firstRows2: seq<nat>, marks2: seq<(nat, nat)>, failed2: bool)
    requires 2 + i < |ws| && ScanSoFar(KindsOf(ws, NamedKind), 0, true, i, counter)
    requires SeenSoFar(CheckEntries(Body(ws)[..i], 3, key), seen, firstRows, marks) && (failed <==> marks != [])
    requires NamedKind(ws[2 + i]) != Blank || counter < 2
    ensures ScanSoFar(KindsOf(ws, NamedKind), 0, true, i + 1, counter2)
    ensures SeenSoFar(CheckEntries(Body(ws)[..i + 1], 3, key), seen2, firstRows2, marks2) && (failed2 <==> marks2 != [])
  {
    var row := ws[2 + i];
    assert Body(ws)[i] == row && KindsOf(ws, NamedKind)[i] == NamedKind(row);
    CheckStep(Body(ws), key, i, seen, firstRows, marks);
    counter2, seen2, firstRows2, marks2, failed2 := counter, seen, firstRows, marks, failed;
    if NamedKind(row) == Acted {
      var k := key(row);
      if k in seen {
        failed2 := true;
        marks2 := marks + [(3 + i, firstRows[IndexOf(seen, k)])];
      } else {
        seen2 := seen + [k];
        firstRows2 := firstRows + [3 + i];
      }
      counter2 := 0;
    } else if NamedKind(row) == Blank {
      counter2 := counter + 1;
    }
    ScanAdvances(KindsOf(ws, NamedKind), 0, true, i, counter, counter2);
  }

  /** The state of `check` after some entries: `seen`, the first row of each seen key, the marks so far. */
  ghost predicate SeenSoFar(es: seq<(nat, string)>, seen: seq<string>, firstRows: seq<nat>, marks: seq<(nat, nat)>) {
    seen == Dedup(EntryKeys(es))
    && |firstRows| == |seen|
    && (forall t :: 0 <= t < |seen| ==> seen[t] in EntryKeys(es) && firstRows[t] == FirstRowOf(es, seen[t]))
    && marks == Marks(es)
  }

  /** One more row of `CheckEntries`. */
  lemma CheckEntriesStep(rows: seq<Row>, first: nat, key: Row -> string, i: nat)
    requires i < |rows|
    ensures CheckEntries(rows[..i + 1], first, key)
            == CheckEntries(rows[..i], first, key) + (if NamedKind(rows[i]) == Acted then [(first + i, key(rows[i]))] else [])
  {
    var pre := rows[..i + 1];
    assert |pre| == i + 1;
    assert pre[..i] == rows[..i];
    assert pre[i] == rows[i];
  }

  /** One more row of the check's loop, for any key of a row. */
  lemma CheckStep(body: seq<Row>, key: Row -> string, i: nat, seen: seq<string>, firstRows: seq<nat>, marks: seq<(nat, nat)>)
    requires i < |body| && SeenSoFar(CheckEntries(body[..i], 3, key), seen, firstRows, marks)
    ensures NamedKind(body[i]) != Acted ==> SeenSoFar(CheckEntries(body[..i + 1], 3, key), seen, firstRows, marks)
    ensures NamedKind(body[i]) == Acted && key(body[i]) in seen ==>
              SeenSoFar(CheckEntries(body[..i + 1], 3, key), seen, firstRows,
                        marks + [(3 + i, firstRows[IndexOf(seen, key(body[i]))])])
    ensures NamedKind(body[i]) == Acted && key(body[i]) !in seen ==>
              SeenSoFar(CheckEntries(body[..i + 1], 3, key), seen + [key(body[i])], firstRows + [3 + i], marks)
  {
    CheckEntriesStep(body, 3, key, i);
    if NamedKind(body[i]) == Acted {
      SeenStep(CheckEntries(body[..i], 3, key), seen, firstRows, marks, (3 + i, key(body[i])));
    } else {
      var es := CheckEntries(body[..i], 3, key);
      assert es + [] == es;
      assert CheckEntries(body[..i + 1], 3, key) == es;
    }
  }

  /** How `seen`, the first rows and the marks follow one more entry. */
  lemma SeenStep(es: seq<(nat, string)>, seen: seq<string>, firstRows: seq<nat>, marks: seq<(nat, nat)>, e: (nat, string))
    requires SeenSoFar(es, seen, firstRows, marks)
    ensures e.1 in seen <==> e.1 in EntryKeys(es)
    ensures e.1 in seen ==> SeenSoFar(es + [e], seen, firstRows, marks + [(e.0, firstRows[IndexOf(seen, e.1)])])
    ensures e.1 !in seen ==> SeenSoFar(es + [e], seen + [e.1], firstRows + [e.0], marks)
  {
    EntryKeysAppend(es, e);
    var ks := EntryKeys(es);
    var es' := es + [e];
    assert Marks(es') == Marks(es) + (if e.1 in ks then [(e.0, FirstRowOf(es, e.1))] else []) by {
      assert es'[..|es'| - 1] == es;
    }
    assert Dedup(EntryKeys(es')) == if e.1 in ks then seen else seen + [e.1] by {
      assert (ks + [e.1])[..|ks|] == ks;
    }
    if e.1 in seen {
      SeenRepeat(es, seen, firstRows, marks, e);
    } else {
      SeenNew(es, seen, firstRows, marks, e);
    }
  }

  /** A key already seen: the lists stay, and the entry is marked with the key's first row. */
  lemma SeenRepeat(es: seq<(nat, string)>, seen: seq<string>, firstRows: seq<nat>, marks: seq<(nat, nat)>, e: (nat, string))
    requires SeenSoFar(es, seen, firstRows, marks) && e.1 in seen
    requires Marks(es + [e]) == Marks(es) + [(e.0, FirstRowOf(es, e.1))]
    requires Dedup(EntryKeys(es + [e])) == seen
    ensures SeenSoFar(es + [e], seen, firstRows, marks + [(e.0, firstRows[IndexOf(seen, e.1)])])
  {
    FirstRowsKept(es, e);
    var t := IndexOf(seen, e.1);
    assert firstRows[t] == FirstRowOf(es, e.1);
  }

  /** A new key: it joins `seen` with its row, and nothing is marked. */
  lemma SeenNew(es: seq<(nat, string)>, seen: seq<string>, firstRows: seq<nat>, marks: seq<(nat, nat)>, e: (nat, string))
    requires SeenSoFar(es, seen, firstRows, marks) && e.1 !in seen && e.1 !in EntryKeys(es)
    requires Marks(es + [e]) == Marks(es)
    requires Dedup(EntryKeys(es + [e])) == seen + [e.1]
    ensures SeenSoFar(es + [e], seen + [e.1], firstRows + [e.0], marks)
  {
    FirstRowsKept(es, e);
    var seen', firstRows' := seen + [e.1], firstRows + [e.0];
    forall t | 0 <= t < |seen'| ensures seen'[t] in EntryKeys(es + [e]) && firstRows'[t] == FirstRowOf(es + [e], seen'[t]) {
      if t < |seen| {
        assert seen'[t] == seen[t] && firstRows'[t] == firstRows[t];
      }
    }
  }

  /** An entry appended after the others keeps the first row of every key, and is the first of a new key. */
  lemma FirstRowsKept(es: seq<(nat, string)>, e: (nat, string))
    ensures forall k :: k in EntryKeys(es) ==> k in EntryKeys(es + [e]) && FirstRowOf(es + [e], k) == FirstRowOf(es, k)
    ensures e.1 in EntryKeys(es + [e])
    ensures e.1 !in EntryKeys(es) ==> FirstRowOf(es + [e], e.1) == e.0
  {
    EntryKeysAppend(es, e);
    var ks := EntryKeys(es);
    forall k | k in ks ensures k in EntryKeys(es + [e]) && FirstRowOf(es + [e], k) == FirstRowOf(es, k) {
      IndexOfAppend(ks, [e.1], k);
    }
    if e.1 !in ks {
      IndexOfAppend(ks, [e.1], e.1);
    }
  }

  // ---------------------------------------------------------------------------------------------
  // The row the source highlights as the first use

  /** Row 3 empty, rows 4 and 5 with the same IRI and no language. */
  const SampleConcepts: Sheet := [[], [], [None, None], [Some("x"), Some("a")], [Some("x"), Some("b")]]

  /** The pass over the sample sheet reads all three rows from row 3. */
  lemma SampleReach()
    ensures Reach(SampleConcepts, NamedKind, 0, true) == 3
  {
    SampleKinds();
    var kinds := KindsOf(SampleConcepts, NamedKind);
    assert kinds[1..] == [Acted, Acted] && [Acted, Acted][1..] == [Acted] && [Acted][1..] == [];
    assert Scan([Acted], 0, true) == (1, 0);
    assert Scan([Acted, Acted], 1, true) == (2, 0);
  }

  /** How the pass sees rows 3 to 5 of the sample sheet. */
  lemma SampleKinds()
    ensures KindsOf(SampleConcepts, NamedKind) == [Blank, Acted, Acted]
  {
    var ws := SampleConcepts;
    assert NamedKind(ws[2]) == Blank && NamedKind(ws[3]) == Acted && NamedKind(ws[4]) == Acted;
  }

  /** The sample rows from row 3 give entries only for rows 4 and 5. */
  lemma SampleBody(key: Row -> string)
    ensures var ws := SampleConcepts;
            CheckEntries(Body(ws), 3, key) == [(4, key(ws[3])), (5, key(ws[4]))]
  {
    var ws := SampleConcepts;
    var body := Body(ws);
    assert body == [ws[2], ws[3], ws[4]] by {
      assert |body| == 3 && body[0] == ws[2] && body[1] == ws[3] && body[2] == ws[4];
    }
    var two, one := [ws[2], ws[3]], [ws[2]];
    assert body[..|body| - 1] == two && two[..|two| - 1] == one && one[..|one| - 1] == [];
    assert CheckEntries(one, 3, key) == [];
    assert CheckEntries(two, 3, key) == [(4, key(ws[3]))];
  }

  /** The Concepts entries of the sample sheet, whatever the key of a row. */
  lemma SampleEntries(key: Row -> string)
    ensures CheckEntries(Body(SampleConcepts)[..Reach(SampleConcepts, NamedKind, 0, true)], 3, key)
            == [(4, key(SampleConcepts[3])), (5, key(SampleConcepts[4]))]
  {
    SampleReach();
    SampleBody(key);
    var body := Body(SampleConcepts);
    assert body[..3] == body;
  }

  /**
   * Rows 4 and 5 repeat one key after an empty row 3: the source highlights row 3, which is empty,
   * while the key was first used in row 4.
   */
  lemma HighlightedRowAsWritten()
    ensures var k := CheckKey(SampleConcepts[3]);
            ConceptEntries(SampleConcepts) == [(4, k), (5, k)]
    ensures MarksAsWritten(ConceptEntries(SampleConcepts)) == [(5, 3)]
    ensures Marks(ConceptEntries(SampleConcepts)) == [(5, 4)]
  {
    SampleEntries(CheckKey);
    var k := CheckKey(SampleConcepts[3]);
    assert CheckKey(SampleConcepts[4]) == k;
    RepeatedPairMarks(k);
  }

  /** One key used twice, in rows 4 and 5. */
  lemma RepeatedPairMarks(k: string)
    ensures MarksAsWritten([(4, k), (5, k)]) == [(5, 3)]
    ensures Marks([(4, k), (5, k)]) == [(5, 4)]
  {
    var es: seq<(nat, string)> := [(4, k), (5, k)];
    var one: seq<(nat, string)> := [(4, k)];
    assert Marks(one) == [] && MarksAsWritten(one) == [] by {
      var none: seq<(nat, string)> := [];
      assert one[..|one| - 1] == none && one[|one| - 1] == (4, k);
      assert EntryKeys(none) == [] && Dedup([]) == [];
    }
    assert Dedup(EntryKeys(one)) == [k] && IndexOf([k], k) == 0 && FirstRowOf(one, k) == 4 by {
      assert EntryKeys(one) == [k] && [k][..0] == [];
    }
    assert es[..|es| - 1] == one && es[|es| - 1] == (5, k);
    assert k in Dedup(EntryKeys(one)) && k in EntryKeys(one);
    assert MarksAsWritten(es) == MarksAsWritten(one) + [(5, 3 + IndexOf(Dedup(EntryKeys(one)), k))];
    assert Marks(es) == Marks(one) + [(5, FirstRowOf(one, k))];
  }
}
