/**
 * The rule the sheet passes use to decide how far down a sheet to go: starting at row 3, an empty
 * row (as the pass sees it) increments a counter, and the pass stops at an empty row met while the
 * counter is already 2. In most passes a row the pass acts on resets the counter; the reading loop
 * of `children_to_indent` reads rows without resetting it.
 */
module RowScan {

  /** What a row means to the stop rule. */
  datatype Kind =
    | Acted   // the pass reads or writes this row; the counter goes back to 0
    | Read    // the pass reads this row and leaves the counter alone
    | Blank   // an empty row for this pass
    | Other   // anything else: the counter is left alone

  /** The rows a reading pass takes into its dict. */
  predicate Taken(k: Kind) {
    k == Acted || k == Read
  }

  /**
   * Scanning rows of the given kinds with the counter starting at `counter`: the number of rows
   * handled before the stop (all of them when no stop happens) and the counter afterwards.
   * `resetOnBreak` says whether the pass sets the counter back to 0 when it stops.
   */
  function Scan(kinds: seq<Kind>, counter: nat, resetOnBreak: bool): (r: (nat, nat))
    ensures r.0 <= |kinds|
    decreases |kinds|
  {
    if kinds == [] then (0, counter)
    else match kinds[0]
      case Acted =>
        var (n, c) := Scan(kinds[1..], 0, resetOnBreak); (n + 1, c)
      case Blank =>
        if counter < 2 then var (n, c) := Scan(kinds[1..], counter + 1, resetOnBreak); (n + 1, c)
        else (0, if resetOnBreak then 0 else counter)
      case Other | Read =>
        var (n, c) := Scan(kinds[1..], counter, resetOnBreak); (n + 1, c)
  }

  /** When the scan stops early, it stops at an empty row. */
  lemma {:induction false} StopsOnBlank(kinds: seq<Kind>, counter: nat, rb: bool)
    ensures Scan(kinds, counter, rb).0 < |kinds| ==> kinds[Scan(kinds, counter, rb).0] == Blank
    decreases |kinds|
  {
    if kinds != [] {
      var next := match kinds[0] case Acted => 0 case Blank => counter + 1 case Other | Read => counter;
      StopsOnBlank(kinds[1..], next, rb);
    }
  }

  /** Three empty rows in a row end the scan, at the latest on the third of them. */
  lemma {:induction false} StopsByThirdBlank(kinds: seq<Kind>, counter: nat, rb: bool, j: nat)
    requires j + 3 <= |kinds|
    requires kinds[j] == Blank && kinds[j + 1] == Blank && kinds[j + 2] == Blank
    ensures Scan(kinds, counter, rb).0 <= j + 2
    decreases j
  {
    if j == 0 {
      ThreeBlanks(kinds, counter, rb);
    } else {
      var next := match kinds[0] case Acted => 0 case Blank => counter + 1 case Other | Read => counter;
      StopsByThirdBlank(kinds[1..], next, rb, j - 1);
    }
  }

  lemma ThreeBlanks(kinds: seq<Kind>, counter: nat, rb: bool)
    requires 3 <= |kinds| && kinds[0] == Blank && kinds[1] == Blank && kinds[2] == Blank
    ensures Scan(kinds, counter, rb).0 <= 2
  {
    var k1 := kinds[1..];
    var k2 := k1[1..];
    assert k1[0] == Blank && k2[0] == Blank;
    if counter < 2 {
      assert Scan(kinds, counter, rb).0 == Scan(k1, counter + 1, rb).0 + 1;
      if counter + 1 < 2 {
        assert Scan(k1, counter + 1, rb).0 == Scan(k2, counter + 2, rb).0 + 1;
        assert Scan(k2, counter + 2, rb).0 == 0;
      }
    }
  }

  /** With the counter below 2 the scan never stops at its first row. */
  lemma NoStopAtFirst(kinds: seq<Kind>, counter: nat, rb: bool)
    requires counter < 2
    ensures kinds == [] || Scan(kinds, counter, rb).0 >= 1
  {
  }

  /** A row the pass acts on keeps the scan going for at least the two rows after it. */
  lemma {:induction false} ActedRowDelaysStop(kinds: seq<Kind>, counter: nat, rb: bool, j: nat)
    requires j < |kinds| && kinds[j] == Acted
    ensures Scan(kinds, counter, rb).0 <= j
         || Scan(kinds, counter, rb).0 >= j + 3
         || Scan(kinds, counter, rb).0 == |kinds|
    decreases j
  {
    if j == 0 {
      var k1 := kinds[1..];
      if k1 != [] {
        var next := match k1[0] case Acted => 0 case Blank => 1 case Other | Read => 0;
        assert Scan(k1, 0, rb).0 == Scan(k1[1..], next, rb).0 + 1;
        NoStopAtFirst(k1[1..], next, rb);
      }
    } else {
      var next := match kinds[0] case Acted => 0 case Blank => counter + 1 case Other | Read => counter;
      ActedRowDelaysStop(kinds[1..], next, rb, j - 1);
    }
  }

  /** One step of the scan: how the state after row 0 relates to the whole scan. */
  lemma ScanStep(kinds: seq<Kind>, counter: nat, rb: bool)
    requires kinds != []
    requires kinds[0] != Blank || counter < 2
    ensures var next := match kinds[0] case Acted => 0 case Blank => counter + 1 case Other | Read => counter;
      Scan(kinds, counter, rb) == (Scan(kinds[1..], next, rb).0 + 1, Scan(kinds[1..], next, rb).1)
  {
  }

  /** A pass that stops early without resetting leaves the counter at 2 for the pass after it. */
  lemma {:induction false} BreakKeepsCounter(kinds: seq<Kind>, counter: nat)
    requires counter <= 2
    ensures Scan(kinds, counter, false).0 < |kinds| ==> Scan(kinds, counter, false).1 == 2
    decreases |kinds|
  {
    if kinds != [] {
      var next := match kinds[0] case Acted => 0 case Blank => counter + 1 case Other | Read => counter;
      if kinds[0] != Blank || counter < 2 {
        BreakKeepsCounter(kinds[1..], next);
      }
    }
  }
}
