/**
 * The identifier-range configuration: validation of one ID range, of a vocabulary's list of ranges
 * and of the whole configuration, and the two tables built from a loaded configuration.
 */
module Config {
  import opened Wrappers
  import opened Strings
  import opened Dicts

  /** One `[[vocabs.*.id_range]]` entry as validated. */
  datatype IdrangeItem = IdrangeItem(firstId: int, lastId: int, ghName: string, orcid: Option<string>, rorId: Option<string>)

  datatype Checks = Checks(allowDelete: bool)

  datatype Vocab = Vocab(idLength: int, permanentIriPart: string, checks: Checks,
                         prefixMap: Dict<string, string>, idRange: seq<IdrangeItem>)

  datatype IdrangeConfig = IdrangeConfig(singleVocab: bool, vocabs: Dict<string, Vocab>, defaultConfig: bool)

  /** The configuration used when there is no configuration file. */
  const DefaultConfig := IdrangeConfig(false, [], true)

  // ---------------------------------------------------------------------------------------------
  // One ID range

  /** An ID-range table as read from TOML: a missing key is `None`. */
  datatype RawItem = RawItem(firstId: Option<int>, lastId: Option<int>, ghName: Option<string>,
                             orcid: Option<string>, rorId: Option<string>)

  datatype FieldError = FirstIdMissing | FirstIdTooSmall | LastIdMissing | GhNameMalformed | OrcidInvalid | RorInvalid

  datatype RootError =
    | LastNotGreater(last: int, first: int) // "last_id (L) must be greater than first_id (F)."
    | LastMissingCompared                   // the comparison of "? (missing)" with an int fails
    | NoOwner(first: int, last: int)        // "ID range requires a github name or an ORCID (range: F-L)."
    | NoOwnerNoRange                        // the same complaint when the range itself is not known

  datatype RootOutcome = Passed | Raised(error: RootError) | Unbound

  datatype ItemOutcome =
    | ValidItem(item: IdrangeItem)
    | InvalidItem(fieldErrors: seq<FieldError>, rootError: Option<RootError>)
    | Crashed      // UnboundLocalError escapes from the validator

  /** `handle_empty_field`: TOML cannot say `None`, so an empty string stands for it. */
  function HandleEmptyField(value: Option<string>): (r: Option<string>)
    ensures r.None? <==> value.None? || value == Some("")
    ensures r.Some? ==> r == value
  {
    if value == Some("") then None else value
  }

  predicate IsGhChar(c: char) {
    'a' <= c <= 'z' || '0' <= c <= '9'
  }

  /**
   * A GitHub login: 1 to 39 lower-case letters, digits and hyphens, neither starting nor ending
   * with a hyphen and with no two hyphens in a row (each hyphen must be followed by a letter or digit).
   */
  predicate GhLogin(w: string) {
    1 <= |w| <= 39 && w[0] != '-' && w[|w| - 1] != '-'
    && (forall i :: 0 <= i < |w| ==> IsGhChar(w[i]) || w[i] == '-')
    && (forall i :: 0 <= i < |w| - 1 ==> w[i] == '-' ==> w[i + 1] != '-')
  }

  /**
   * The `gh_name` pattern under `re.match`: empty or a login, and since `$` also matches before a
   * final newline, either may be followed by one "\n".
   */
  predicate GhNameMatches(s: string) {
    s == "" || s == "\n" || GhLogin(s) || (|s| >= 2 && s[|s| - 1] == '\n' && GhLogin(s[..|s| - 1]))
  }

  /** The login rule excludes a leading, trailing or doubled hyphen and upper-case letters. */
  lemma GhNameExamples()
    ensures GhNameMatches("otto") && GhNameMatches("no-range") && GhNameMatches("")
    ensures !GhNameMatches("-otto") && !GhNameMatches("otto-") && !GhNameMatches("ot--to") && !GhNameMatches("Otto")
  {
    var a := "ot--to";
    assert a[2] == '-' && a[3] == '-';
  }

  /** The field values that survive field validation, as the root validator sees them. */
  datatype Values = Values(first: Option<int>, last: Option<int>, gh: Option<string>,
                           orcid: Option<Option<string>>, ror: Option<Option<string>>)

  /** Field validation; `orcidValid` and `rorValid` are the ORCID and ROR field types. */
  function FieldValues(raw: RawItem, orcidValid: string -> bool, rorValid: string -> bool): Values {
    var orcid := HandleEmptyField(raw.orcid);
    var ror := HandleEmptyField(raw.rorId);
    Values(
      if raw.firstId.Some? && raw.firstId.value >= 1 then raw.firstId else None,
      raw.lastId,
      if raw.ghName.None? then Some("") else if GhNameMatches(raw.ghName.value) then raw.ghName else None,
      if orcid.None? then Some(None) else if orcidValid(orcid.value) then Some(orcid) else None,
      if ror.None? then Some(None) else if rorValid(ror.value) then Some(ror) else None)
  }

  /** The field errors, in field order. */
  function FieldErrors(raw: RawItem, orcidValid: string -> bool, rorValid: string -> bool): (r: seq<FieldError>)
    ensures r == [] <==> (FieldValues(raw, orcidValid, rorValid).first.Some?
      && FieldValues(raw, orcidValid, rorValid).last.Some?
      && FieldValues(raw, orcidValid, rorValid).gh.Some?
      && FieldValues(raw, orcidValid, rorValid).orcid.Some?
      && FieldValues(raw, orcidValid, rorValid).ror.Some?)
  {
    var vals := FieldValues(raw, orcidValid, rorValid);
    (if raw.firstId.None? then [FirstIdMissing] else if raw.firstId.value < 1 then [FirstIdTooSmall] else [])
    + (if raw.lastId.None? then [LastIdMissing] else [])
    + (if vals.gh.None? then [GhNameMalformed] else [])
    + (if vals.orcid.None? then [OrcidInvalid] else [])
    + (if vals.ror.None? then [RorInvalid] else [])
  }

  /** Whether the root validator sees an owner: a truthy `orcid` or `gh_name`. */
  predicate HasOwner(vals: Values) {
    (vals.orcid.Some? && vals.orcid.value.Some? && vals.orcid.value.value != "")
    || (vals.gh.Some? && vals.gh.value != "")
  }

  /** `order_of_ids` as written: `first` and `last` are only bound when `first_id` passed. */
  function OrderOfIdsAsWritten(vals: Values): (r: RootOutcome)
    ensures r == Unbound <==> vals.first.None? && !HasOwner(vals)
  {
    if vals.first.Some? && (vals.last.None? || vals.last.value <= vals.first.value) then
      Raised(if vals.last.None? then LastMissingCompared else LastNotGreater(vals.last.value, vals.first.value))
    else if !HasOwner(vals) then
      if vals.first.None? then Unbound else Raised(NoOwner(vals.first.value, vals.last.value))
    else Passed
  }

  /** `order_of_ids` as intended: the missing owner is reported even when the range is unknown. */
  function OrderOfIds(vals: Values): (r: RootOutcome)
    ensures r != Unbound
    ensures r == Passed <==> (vals.first.Some? ==> vals.last.Some? && vals.last.value > vals.first.value) && HasOwner(vals)
    ensures OrderOfIdsAsWritten(vals) != Unbound ==> r == OrderOfIdsAsWritten(vals)
  {
    if vals.first.Some? && (vals.last.None? || vals.last.value <= vals.first.value) then
      Raised(if vals.last.None? then LastMissingCompared else LastNotGreater(vals.last.value, vals.first.value))
    else if !HasOwner(vals) then
      if vals.first.None? then Raised(NoOwnerNoRange) else Raised(NoOwner(vals.first.value, vals.last.value))
    else Passed
  }

  function Outcome(raw: RawItem, orcidValid: string -> bool, rorValid: string -> bool, root: RootOutcome): ItemOutcome {
    var vals := FieldValues(raw, orcidValid, rorValid);
    var errs := FieldErrors(raw, orcidValid, rorValid);
    if root == Unbound then Crashed
    else if errs == [] && root == Passed then
      ValidItem(IdrangeItem(vals.first.value, vals.last.value, vals.gh.value, vals.orcid.value, vals.ror.value))
    else InvalidItem(errs, if root.Raised? then Some(root.error) else None)
  }

  /** `IdrangeItem(...)` with the validator as written. */
  function ValidateItemAsWritten(raw: RawItem, orcidValid: string -> bool, rorValid: string -> bool): ItemOutcome {
    Outcome(raw, orcidValid, rorValid, OrderOfIdsAsWritten(FieldValues(raw, orcidValid, rorValid)))
  }

  /** `IdrangeItem(...)` with the corrected validator. */
  function ValidateItem(raw: RawItem, orcidValid: string -> bool, rorValid: string -> bool): (r: ItemOutcome)
    ensures r != Crashed
  {
    Outcome(raw, orcidValid, rorValid, OrderOfIds(FieldValues(raw, orcidValid, rorValid)))
  }

  /** What a valid ID range is: `first_id >= 1`, `last_id > first_id`, valid fields and an owner. */
  lemma ValidItemIff(raw: RawItem, orcidValid: string -> bool, rorValid: string -> bool)
    ensures ValidateItem(raw, orcidValid, rorValid).ValidItem? <==>
      raw.firstId.Some? && raw.firstId.value >= 1 && raw.lastId.Some? && raw.lastId.value > raw.firstId.value
      && FieldErrors(raw, orcidValid, rorValid) == [] && HasOwner(FieldValues(raw, orcidValid, rorValid))
    ensures ValidateItem(raw, orcidValid, rorValid).ValidItem? ==>
      var it := ValidateItem(raw, orcidValid, rorValid).item;
      it.firstId >= 1 && it.lastId > it.firstId && (it.ghName != "" || (it.orcid.Some? && it.orcid.value != ""))
      && it.orcid == HandleEmptyField(raw.orcid) && it.rorId == HandleEmptyField(raw.rorId)
  {
  }

  /** An item with an owner and a range that is not increasing is rejected with both numbers. */
  lemma LastNotGreaterReported(first: int, last: int, gh: string, orcidValid: string -> bool, rorValid: string -> bool)
    requires first >= 1 && last <= first && gh != "" && GhNameMatches(gh)
    ensures ValidateItem(RawItem(Some(first), Some(last), Some(gh), None, None), orcidValid, rorValid)
      == InvalidItem([], Some(LastNotGreater(last, first)))
  {
  }

  /** The two validators agree wherever the one as written does not crash. */
  lemma ValidatorsAgree(raw: RawItem, orcidValid: string -> bool, rorValid: string -> bool)
    requires ValidateItemAsWritten(raw, orcidValid, rorValid) != Crashed
    ensures ValidateItem(raw, orcidValid, rorValid) == ValidateItemAsWritten(raw, orcidValid, rorValid)
  {
  }

  /** As written, `first_id = 0` without an owner ends in `UnboundLocalError`, not a validation error. */
  lemma UnboundWithoutFirstId(orcidValid: string -> bool, rorValid: string -> bool)
    ensures ValidateItemAsWritten(RawItem(Some(0), Some(5), None, None, None), orcidValid, rorValid) == Crashed
    ensures ValidateItem(RawItem(Some(0), Some(5), None, None, None), orcidValid, rorValid)
      == InvalidItem([FirstIdTooSmall], Some(NoOwnerNoRange))
  {
  }

  // ---------------------------------------------------------------------------------------------
  // A vocabulary

  /** `id_length: conint(gt=2, lt=19)`. */
  predicate IdLengthOk(n: int) {
    2 < n < 19
  }

  /** The IDs a range reserves: both ends included. */
  function IdsOf(first: int, last: int): (r: set<int>)
    ensures forall x :: x in r <==> first <= x <= last
    decreases last - first
  {
    if first > last then {} else IdsOf(first, last - 1) + {last}
  }

  /** `ids_defined` when the loop reaches range `j`. */
  function DefinedBefore(items: seq<IdrangeItem>, j: nat): set<int>
    requires j <= |items|
  {
    if j == 0 then {} else DefinedBefore(items, j - 1) + IdsOf(items[j - 1].firstId, items[j - 1].lastId)
  }

  /** `reused` for range `j`. */
  function Reused(items: seq<IdrangeItem>, j: nat): set<int>
    requires j < |items|
  {
    DefinedBefore(items, j) * IdsOf(items[j].firstId, items[j].lastId)
  }

  datatype ConfigError =
    | Overlap(lo: int, hi: int)   // "Overlapping ID ranges for IDs lo-hi"
    | Inconsistent                // "single_vocab" is true but multiple vocabularies are found.
    | IdLengthOutOfRange(n: int)  // `id_length` outside `conint(gt=2, lt=19)`

  /** `x` is an ID of range `j` that an earlier range already reserved. */
  predicate Clash(items: seq<IdrangeItem>, j: nat, x: int)
    requires j < |items|
  {
    x in Reused(items, j)
  }

  ghost predicate NoneReused(items: seq<IdrangeItem>) {
    forall j, x :: 0 <= j < |items| ==> !Clash(items, j, x)
  }

  /** The smallest ID of `first..last` that is in `defined`, as `min` of the shared IDs. */
  method LowestShared(defined: set<int>, first: int, last: int) returns (lo: Option<int>)
    ensures lo.None? ==> forall x :: first <= x <= last ==> x !in defined
    ensures lo.Some? ==> (first <= lo.value <= last && lo.value in defined
      && forall x :: first <= x < lo.value ==> x !in defined)
  {
    var x := first;
    while x <= last
      invariant first <= x <= last + 1 || (x == first && first > last)
      invariant forall y :: first <= y < x ==> y !in defined
      decreases last - x
    {
      if x in defined {
        return Some(x);
      }
      x := x + 1;
    }
    return None;
  }

  /** The largest ID of `first..last` that is in `defined`, as `max` of the shared IDs. */
  method HighestShared(defined: set<int>, first: int, last: int) returns (hi: Option<int>)
    ensures hi.None? ==> forall x :: first <= x <= last ==> x !in defined
    ensures hi.Some? ==> (first <= hi.value <= last && hi.value in defined
      && forall x :: hi.value < x <= last ==> x !in defined)
  {
    var x := last;
    while x >= first
      invariant first - 1 <= x <= last || (x == last && first > last)
      invariant forall y :: x < y <= last ==> y !in defined
      decreases x - first
    {
      if x in defined {
        return Some(x);
      }
      x := x - 1;
    }
    return None;
  }

  /**
   * The `id_range` validator of `Vocab`: the list comes back unchanged when no range reuses an ID
   * of an earlier one; otherwise the first clash is reported by its smallest and largest shared ID.
   */
  method CheckIdRanges(items: seq<IdrangeItem>) returns (r: Result<seq<IdrangeItem>, ConfigError>)
    ensures r.Success? <==> NoneReused(items)
    ensures r.Success? ==> r.value == items
    ensures r.Failure? ==> exists j :: (0 <= j < |items|
      && (forall k, x :: 0 <= k < j ==> !Clash(items, k, x))
      && r.error.Overlap? && Clash(items, j, r.error.lo) && Clash(items, j, r.error.hi)
      && forall x :: Clash(items, j, x) ==> r.error.lo <= x <= r.error.hi)
  {
    var idsDefined: set<int> := {};
    var j := 0;
    while j < |items|
      invariant j <= |items|
      invariant idsDefined == DefinedBefore(items, j)
      invariant forall k, x :: 0 <= k < j ==> !Clash(items, k, x)
    {
      var first, last := items[j].firstId, items[j].lastId;
      var lo := LowestShared(idsDefined, first, last);
      if lo.Some? {
        var hi := HighestShared(idsDefined, first, last);
        assert Clash(items, j, lo.value);
        return Failure(Overlap(lo.value, hi.value));
      }
      idsDefined := idsDefined + IdsOf(first, last);
      j := j + 1;
    }
    return Success(items);
  }

  /** `lo`..`hi` are the lowest and highest reused IDs of the first range that reuses any. */
  ghost predicate FirstClash(items: seq<IdrangeItem>, lo: int, hi: int) {
    exists j :: 0 <= j < |items|
      && (forall k, x :: 0 <= k < j ==> !Clash(items, k, x))
      && Clash(items, j, lo) && Clash(items, j, hi)
      && forall x :: Clash(items, j, x) ==> lo <= x <= hi
  }

  /**
   * `Vocab(...)` on its two constrained fields: pydantic validates every field and reports all
   * failures together, `id_length` before `id_range`.
   */
  method ValidateVocab(v: Vocab) returns (r: Result<Vocab, seq<ConfigError>>)
    ensures r.Success? <==> IdLengthOk(v.idLength) && NoneReused(v.idRange)
    ensures r.Success? ==> r.value == v
    ensures r.Failure? ==> (IdLengthOutOfRange(v.idLength) in r.error <==> !IdLengthOk(v.idLength))
    ensures r.Failure? ==> forall e :: e in r.error ==> e == IdLengthOutOfRange(v.idLength) || e.Overlap?
    ensures r.Failure? ==> ((exists e :: e in r.error && e.Overlap?) <==> !NoneReused(v.idRange))
    ensures r.Failure? ==> forall e :: e in r.error && e.Overlap? ==> FirstClash(v.idRange, e.lo, e.hi)
  {
    var errors: seq<ConfigError> := [];
    if !IdLengthOk(v.idLength) {
      errors := [IdLengthOutOfRange(v.idLength)];
    }
    var ranges := CheckIdRanges(v.idRange);
    if ranges.Failure? {
      assert FirstClash(v.idRange, ranges.error.lo, ranges.error.hi);
      errors := errors + [ranges.error];
    }
    if errors == [] {
      return Success(v);
    }
    return Failure(errors);
  }

  /** An ID is defined before range `j` exactly when one of the earlier ranges holds it. */
  lemma {:induction false} DefinedBeforeMeans(items: seq<IdrangeItem>, j: nat, x: int)
    requires j <= |items|
    ensures x in DefinedBefore(items, j) <==> exists k :: 0 <= k < j && x in IdsOf(items[k].firstId, items[k].lastId)
  {
    if j > 0 {
      DefinedBeforeMeans(items, j - 1, x);
    }
  }

  /** The check passes exactly when no two ranges share an ID. */
  lemma NoneReusedIffDisjoint(items: seq<IdrangeItem>)
    ensures NoneReused(items) <==>
      (forall a, b, x :: 0 <= a < b < |items| && x in IdsOf(items[a].firstId, items[a].lastId) ==>
        x !in IdsOf(items[b].firstId, items[b].lastId))
  {
    if NoneReused(items) {
      forall a, b, x | 0 <= a < b < |items| && x in IdsOf(items[a].firstId, items[a].lastId)
        ensures x !in IdsOf(items[b].firstId, items[b].lastId)
      {
        DefinedBeforeMeans(items, b, x);
        assert !Clash(items, b, x);
      }
    } else {
      var b, x :| 0 <= b < |items| && Clash(items, b, x);
      DefinedBeforeMeans(items, b, x);
      var a :| 0 <= a < b && x in IdsOf(items[a].firstId, items[a].lastId);
    }
  }

  function Max(a: int, b: int): int { if a >= b then a else b }
  function Min(a: int, b: int): int { if a <= b then a else b }

  /** For two ranges the shared IDs run from the later start to the earlier end. */
  lemma TwoRangesClash(a: IdrangeItem, b: IdrangeItem, x: int)
    ensures Clash([a, b], 1, x) <==> Max(a.firstId, b.firstId) <= x <= Min(a.lastId, b.lastId)
  {
    assert DefinedBefore([a, b], 1) == DefinedBefore([a, b], 0) + IdsOf(a.firstId, a.lastId);
    assert x in DefinedBefore([a, b], 1) <==> x in IdsOf(a.firstId, a.lastId);
  }

  // ---------------------------------------------------------------------------------------------
  // The whole configuration

  /** The vocabulary table with its keys lower-cased; a repeated key keeps its first place, last value. */
  function LowerKeys(raw: Dict<string, Vocab>): (r: Dict<string, Vocab>)
    ensures DistinctKeys(r)
    ensures forall i :: 0 <= i < |r| ==> IsLower(r[i].0)
    ensures forall j :: 0 <= j < |raw| ==> Lower(raw[j].0) in Keys(r)
    ensures |r| <= |raw|
  {
    if raw == [] then []
    else
      var init := LowerKeys(raw[..|raw| - 1]);
      var (k, v) := raw[|raw| - 1];
      LowerIdempotent(k);
      var r := Put(init, Lower(k), v);
      assert forall i :: 0 <= i < |r| ==> r[i].0 in Keys(r);
      assert forall j :: 0 <= j < |raw| - 1 ==> raw[j] == raw[..|raw| - 1][j];
      r
  }

  /** Every key of the lower-cased table comes from a raw key. */
  ghost predicate FromRaw(raw: Dict<string, Vocab>, r: Dict<string, Vocab>) {
    forall i :: 0 <= i < |r| ==> exists j :: 0 <= j < |raw| && Lower(raw[j].0) == r[i].0
  }

  /** No later raw entry has the same lower-cased key as entry `j`. */
  predicate LastOfItsKey(raw: Dict<string, Vocab>, j: nat)
    requires j < |raw|
  {
    forall j' :: j < j' < |raw| ==> Lower(raw[j'].0) != Lower(raw[j].0)
  }

  /** Each lower-cased key holds the value of the last raw entry with that lower-cased key. */
  ghost predicate LastWins(raw: Dict<string, Vocab>, r: Dict<string, Vocab>) {
    forall j :: 0 <= j < |raw| && LastOfItsKey(raw, j) ==> Get(r, Lower(raw[j].0)) == Some(raw[j].1)
  }

  /** `LowerKeys` invents no key, and for a repeated key the last raw value wins. */
  lemma {:induction false} LowerKeysLastWins(raw: Dict<string, Vocab>)
    ensures FromRaw(raw, LowerKeys(raw)) && LastWins(raw, LowerKeys(raw))
    decreases |raw|
  {
    if raw != [] {
      var init := LowerKeys(raw[..|raw| - 1]);
      LowerKeysLastWins(raw[..|raw| - 1]);
      var (k, v) := raw[|raw| - 1];
      assert LowerKeys(raw) == Put(init, Lower(k), v);
      FromRawStep(raw, init, LowerKeys(raw));
      LastWinsStep(raw, init, LowerKeys(raw));
    }
  }

  lemma FromRawStep(raw: Dict<string, Vocab>, init: Dict<string, Vocab>, r: Dict<string, Vocab>)
    requires raw != [] && DistinctKeys(init) && FromRaw(raw[..|raw| - 1], init)
    requires r == Put(init, Lower(raw[|raw| - 1].0), raw[|raw| - 1].1)
    ensures FromRaw(raw, r)
  {
    var n := |raw| - 1;
    var pre := raw[..n];
    forall i | 0 <= i < |r| ensures exists j :: 0 <= j < |raw| && Lower(raw[j].0) == r[i].0 {
      if r[i] in init {
        var i0 :| 0 <= i0 < |init| && init[i0] == r[i];
        var j :| 0 <= j < |pre| && Lower(pre[j].0) == init[i0].0;
        assert raw[j] == pre[j];
      } else {
        assert Lower(raw[n].0) == r[i].0;
      }
    }
  }

  lemma LastWinsStep(raw: Dict<string, Vocab>, init: Dict<string, Vocab>, r: Dict<string, Vocab>)
    requires raw != [] && DistinctKeys(init) && LastWins(raw[..|raw| - 1], init)
    requires r == Put(init, Lower(raw[|raw| - 1].0), raw[|raw| - 1].1)
    ensures LastWins(raw, r)
  {
    var n := |raw| - 1;
    var pre := raw[..n];
    forall j | 0 <= j < |raw| && LastOfItsKey(raw, j) ensures Get(r, Lower(raw[j].0)) == Some(raw[j].1) {
      if j < n {
        assert Lower(raw[n].0) != Lower(raw[j].0);
        assert pre[j] == raw[j];
        forall j' | j < j' < |pre| ensures Lower(pre[j'].0) != Lower(pre[j].0) {
          assert pre[j'] == raw[j'];
        }
        assert LastOfItsKey(pre, j);
      }
    }
  }

  /** Keys spelled the same up to case name one vocabulary. */
  lemma CaseVariantsMerge(v: Vocab, w: Vocab)
    ensures LowerKeys([("MyVocab", v), ("myvocab", w)]) == [("myvocab", w)]
  {
    var a: Dict<string, Vocab> := [("MyVocab", v)];
    assert a[..0] == [];
    assert Lower("MyVocab") == "myvocab";
    assert [("MyVocab", v), ("myvocab", w)][..1] == a;
  }

  /** `IDrangeConfig(...)`: keys lower-cased, then the single-vocabulary rule. */
  function ValidateConfig(singleVocab: bool, rawVocabs: Dict<string, Vocab>, defaultConfig: bool)
    : (r: Result<IdrangeConfig, ConfigError>)
    ensures r.Failure? <==> singleVocab && |LowerKeys(rawVocabs)| > 1
    ensures r.Failure? ==> r.error == Inconsistent
    ensures r.Success? ==> r.value == IdrangeConfig(singleVocab, LowerKeys(rawVocabs), defaultConfig)
  {
    var vocabs := LowerKeys(rawVocabs);
    if singleVocab && |vocabs| > 1 then Failure(Inconsistent)
    else Success(IdrangeConfig(singleVocab, vocabs, defaultConfig))
  }

  /** Under `single_vocab` two names that differ only by case are one vocabulary and pass. */
  lemma SingleVocabCaseVariants(v: Vocab, w: Vocab)
    ensures ValidateConfig(true, [("MyVocab", v), ("myvocab", w)], false).Success?
  {
    CaseVariantsMerge(v, w);
  }

  /**
   * What `IDrangeConfig(**conf)` gives: the configuration, the validation errors pydantic collects,
   * or a `KeyError` that escapes from the root validator.
   */
  datatype LoadOutcome = Loaded(config: IdrangeConfig) | Invalid(errors: seq<ConfigError>) | KeyErrorRaised

  /** The outcome of validating each raw vocabulary table, under its raw key. */
  type VocabResults = Dict<string, Result<Vocab, seq<ConfigError>>>

  /** Every vocabulary table validated. */
  predicate AllValid(results: VocabResults) {
    forall i :: 0 <= i < |results| ==> results[i].1.Success?
  }

  /** The validated vocabularies under their raw keys. */
  function ValidVocabs(results: VocabResults): (r: Dict<string, Vocab>)
    requires AllValid(results)
  {
    seq(|results|, i requires 0 <= i < |results| && AllValid(results) => (results[i].0, results[i].1.value))
  }

  /** The errors of the failed vocabularies, in table order, as pydantic collects them. */
  function FailedErrors(results: VocabResults): (r: seq<ConfigError>)
    ensures forall e :: e in r <==> exists i :: 0 <= i < |results| && results[i].1.Failure? && e in results[i].1.error
    ensures AllValid(results) ==> r == []
  {
    if results == [] then []
    else
      var rest := FailedErrors(results[1..]);
      assert forall i :: 0 < i < |results| ==> results[i] == results[1..][i - 1];
      assert forall i :: 0 <= i < |results| - 1 ==> results[1..][i] == results[i + 1];
      (if results[0].1.Failure? then results[0].1.error else []) + rest
  }

  /**
   * `IDrangeConfig` as intended: a vocabulary that fails validation leaves the field errors alone
   * (the root validator does not look at the missing field); otherwise the keys are lower-cased and
   * the single-vocabulary rule applies.
   */
  function LoadConfig(singleVocab: bool, results: VocabResults, defaultConfig: bool): (r: LoadOutcome)
    ensures !r.KeyErrorRaised?
    ensures r.Loaded? <==> AllValid(results) && !(singleVocab && |LowerKeys(ValidVocabs(results))| > 1)
    ensures r.Loaded? ==> r.config == IdrangeConfig(singleVocab, LowerKeys(ValidVocabs(results)), defaultConfig)
    ensures r.Invalid? && AllValid(results) ==> r.errors == [Inconsistent]
    ensures r.Invalid? && !AllValid(results) ==>
              forall e :: e in r.errors <==> exists i :: 0 <= i < |results| && results[i].1.Failure? && e in results[i].1.error
  {
    if !AllValid(results) then Invalid(FailedErrors(results))
    else
      match ValidateConfig(singleVocab, ValidVocabs(results), defaultConfig)
      case Success(c) => Loaded(c)
      case Failure(e) => Invalid([e])
  }

  /**
   * `IDrangeConfig` as written: the root validator runs even when the `vocabs` field failed, and
   * then `values["vocabs"]` raises `KeyError` whenever `single_vocab` is set.
   */
  function LoadConfigAsWritten(singleVocab: bool, results: VocabResults, defaultConfig: bool): (r: LoadOutcome)
    ensures r.KeyErrorRaised? <==> singleVocab && !AllValid(results)
    ensures !r.KeyErrorRaised? ==> r == LoadConfig(singleVocab, results, defaultConfig)
  {
    if singleVocab && !AllValid(results) then KeyErrorRaised
    else LoadConfig(singleVocab, results, defaultConfig)
  }

  /**
   * Under `single_vocab`, one vocabulary whose ID ranges overlap: as written the load raises
   * `KeyError`; as intended it reports the overlap.
   */
  lemma KeyErrorOnInvalidVocab()
    ensures LoadConfigAsWritten(true, [("myvocab", Failure([Overlap(3, 4)]))], false) == KeyErrorRaised
    ensures LoadConfig(true, [("myvocab", Failure([Overlap(3, 4)]))], false) == Invalid([Overlap(3, 4)])
  {
    var results: VocabResults := [("myvocab", Failure([Overlap(3, 4)]))];
    assert results[0].1.Failure?;
    assert results[1..] == [];
  }

  // ---------------------------------------------------------------------------------------------
  // Tables built from the loaded configuration

  predicate IsDigit(c: char) {
    '0' <= c <= '9'
  }

  /**
   * `re.compile("(?P<identifier>[0-9]{n})$").search(s)`: the identifier group, the `n` digits at the
   * end of `s` (or before a final newline, where `$` also matches and which is found first).
   */
  function IdentifierOf(n: nat, s: string): (r: Option<string>)
    ensures r.Some? ==> (|r.value| == n && (forall i :: 0 <= i < n ==> IsDigit(r.value[i]))
      && (EndsWith(s, r.value) || EndsWith(s, r.value + "\n")))
  {
    if |s| >= n + 1 && s[|s| - 1] == '\n' && (forall i :: |s| - 1 - n <= i < |s| - 1 ==> IsDigit(s[i])) then
      Some(s[|s| - 1 - n..|s| - 1])
    else if |s| >= n && (forall i :: |s| - n <= i < |s| ==> IsDigit(s[i])) then
      Some(s[|s| - n..])
    else None
  }

  /** The pattern finds the trailing digits of an identifier and rejects a shorter digit run. */
  lemma IdentifierTrailing(n: nat, prefix: string, digits: string)
    requires |digits| == n && forall i :: 0 <= i < n ==> IsDigit(digits[i])
    requires n > 0
    ensures IdentifierOf(n, prefix + digits) == Some(digits)
    ensures n > 0 && (prefix == [] || !IsDigit(prefix[|prefix| - 1])) ==> IdentifierOf(n + 1, prefix + digits).None?
  {
    var s := prefix + digits;
    assert s[|s| - n..] == digits;
    if prefix == [] || !IsDigit(prefix[|prefix| - 1]) {
      if |s| >= n + 1 {
        assert !IsDigit(s[|s| - n - 1]);
      }
    }
  }

  /** `r` holds the patterns of the first `i` vocabularies. */
  ghost predicate PatternsOf(vocabs: Dict<string, Vocab>, i: nat, r: Dict<string, nat>)
    requires i <= |vocabs|
  {
    DistinctKeys(r)
    && (forall name :: Get(r, name).Some? <==> Get(vocabs[..i], name).Some? && Get(vocabs[..i], name).value.idLength > 0)
    && (forall name :: Get(r, name).Some? ==> Get(r, name).value == Get(vocabs[..i], name).value.idLength)
  }

  /**
   * The `id_patterns` table: for every vocabulary with a positive `id_length`, in configuration
   * order, that length (which fixes the pattern).
   */
  method IdPatterns(vocabs: Dict<string, Vocab>) returns (r: Dict<string, nat>)
    requires DistinctKeys(vocabs)
    ensures DistinctKeys(r)
    ensures forall name :: Get(r, name).Some? <==> Get(vocabs, name).Some? && Get(vocabs, name).value.idLength > 0
    ensures forall name :: Get(r, name).Some? ==> Get(r, name).value == Get(vocabs, name).value.idLength
  {
    r := [];
    var i := 0;
    assert vocabs[..0] == [];
    while i < |vocabs|
      invariant i <= |vocabs| && PatternsOf(vocabs, i, r)
    {
      var (name, voc) := vocabs[i];
      var next := if voc.idLength > 0 then Put(r, name, voc.idLength as nat) else r;
      PatternsStep(vocabs, i, r, next);
      r := next;
      i := i + 1;
    }
    assert vocabs[..i] == vocabs;
  }

  lemma PatternsStep(vocabs: Dict<string, Vocab>, i: nat, r: Dict<string, nat>, next: Dict<string, nat>)
    requires DistinctKeys(vocabs) && i < |vocabs| && PatternsOf(vocabs, i, r)
    requires next == if vocabs[i].1.idLength > 0 then Put(r, vocabs[i].0, vocabs[i].1.idLength as nat) else r
    ensures PatternsOf(vocabs, i + 1, next)
  {
    GetPrefixStep(vocabs, i);
    var p, q := vocabs[..i], vocabs[..i + 1];
    forall name
      ensures (Get(next, name).Some? <==> Get(q, name).Some? && Get(q, name).value.idLength > 0)
              && (Get(next, name).Some? ==> Get(next, name).value == Get(q, name).value.idLength)
    {
      if name != vocabs[i].0 {
        assert Get(q, name) == Get(p, name) && Get(next, name) == Get(r, name);
      }
    }
  }

  /** One more entry of a table with distinct keys. */
  lemma GetPrefixStep<V>(d: Dict<string, V>, i: nat)
    requires i < |d| && DistinctKeys(d)
    ensures Get(d[..i + 1], d[i].0) == Some(d[i].1)
    ensures Get(d[..i], d[i].0) == None
    ensures forall k :: k != d[i].0 ==> Get(d[..i + 1], k) == Get(d[..i], k)
  {
    var p := d[..i];
    var q := d[..i + 1];
    assert q == p + [d[i]];
    assert Keys(q) == Keys(p) + [d[i].0];
    assert d[i].0 !in Keys(p);
    forall k | k != d[i].0 ensures Get(q, k) == Get(p, k) {
      if k in Keys(p) {
        assert IndexOf(Keys(q), k) == IndexOf(Keys(p), k) by {
          IndexOfAppend(Keys(p), [d[i].0], k);
        }
      }
    }
    IndexOfAppend(Keys(p), [d[i].0], d[i].0);
  }

  /** Every ID range of every vocabulary, in configuration order. */
  function AllItems(vocabs: Dict<string, Vocab>): seq<IdrangeItem> {
    if vocabs == [] then [] else AllItems(vocabs[..|vocabs| - 1]) + vocabs[|vocabs| - 1].1.idRange
  }

  function Range(it: IdrangeItem): (int, int) {
    (it.firstId, it.lastId)
  }

  /** `[rng]` when the identity field is set and names `actor`. */
  function Share(isSet: bool, key: string, actor: string, rng: (int, int)): seq<(int, int)> {
    if isSet && key == actor then [rng] else []
  }

  function OrcidKey(it: IdrangeItem): string { if it.orcid.Some? then it.orcid.value else "" }
  function RorKey(it: IdrangeItem): string { if it.rorId.Some? then it.rorId.value else "" }

  /** The ranges one ID range contributes to `actor`: once per truthy identity field naming it. */
  function Contribution(it: IdrangeItem, actor: string): seq<(int, int)> {
    Share(OrcidKey(it) != "", OrcidKey(it), actor, Range(it))
    + Share(it.ghName != "", it.ghName, actor, Range(it))
    + Share(RorKey(it) != "", RorKey(it), actor, Range(it))
  }

  /** All ranges owned by `actor`, in configuration order. */
  function OwnedRanges(items: seq<IdrangeItem>, actor: string): seq<(int, int)> {
    if items == [] then [] else OwnedRanges(items[..|items| - 1], actor) + Contribution(items[|items| - 1], actor)
  }

  /** `id_ranges_by_actor[actor]`, with a missing key read as the empty list. */
  function Lookup(d: Dict<string, seq<(int, int)>>, actor: string): seq<(int, int)> {
    if Get(d, actor).Some? then Get(d, actor).value else []
  }

  /** Every actor listed in `d` owns at least one range. */
  predicate OwnsSome(d: Dict<string, seq<(int, int)>>) {
    forall i :: 0 <= i < |d| ==> d[i].1 != []
  }

  /** `d[actor].append(rng)` on a `defaultdict(list)`. */
  function AppendTo(d: Dict<string, seq<(int, int)>>, actor: string, rng: (int, int)): (r: Dict<string, seq<(int, int)>>)
    requires DistinctKeys(d)
    ensures DistinctKeys(r)
    ensures Lookup(r, actor) == Lookup(d, actor) + [rng]
    ensures forall a :: a != actor ==> Lookup(r, a) == Lookup(d, a)
    ensures OwnsSome(d) ==> OwnsSome(r)
  {
    Put(d, actor, Lookup(d, actor) + [rng])
  }

  /** `r` holds the ranges of the first `i` items. */
  ghost predicate ActorsOf(items: seq<IdrangeItem>, i: nat, r: Dict<string, seq<(int, int)>>)
    requires i <= |items|
  {
    DistinctKeys(r)
    && (forall actor :: Lookup(r, actor) == OwnedRanges(items[..i], actor))
    && OwnsSome(r)
  }

  /** `if is_set: d[key].append(rng)`. */
  function AppendIf(d: Dict<string, seq<(int, int)>>, isSet: bool, key: string, rng: (int, int))
    : (r: Dict<string, seq<(int, int)>>)
    requires DistinctKeys(d)
    ensures DistinctKeys(r)
    ensures forall a :: Lookup(r, a) == Lookup(d, a) + Share(isSet, key, a, rng)
    ensures OwnsSome(d) ==> OwnsSome(r)
  {
    if isSet then AppendTo(d, key, rng) else d
  }

  /** The three appends for one ID range. */
  function AddItem(d: Dict<string, seq<(int, int)>>, idr: IdrangeItem): (r: Dict<string, seq<(int, int)>>)
    requires DistinctKeys(d)
    ensures DistinctKeys(r)
    ensures forall actor :: Lookup(r, actor) == Lookup(d, actor) + Contribution(idr, actor)
    ensures OwnsSome(d) ==> OwnsSome(r)
  {
    var rng := Range(idr);
    var d1 := AppendIf(d, OrcidKey(idr) != "", OrcidKey(idr), rng);
    var d2 := AppendIf(d1, idr.ghName != "", idr.ghName, rng);
    var d3 := AppendIf(d2, RorKey(idr) != "", RorKey(idr), rng);
    forall actor ensures Lookup(d3, actor) == Lookup(d, actor) + Contribution(idr, actor) {
      ThreeShares(Lookup(d, actor), Lookup(d1, actor), Lookup(d2, actor), Lookup(d3, actor),
        Share(OrcidKey(idr) != "", OrcidKey(idr), actor, rng),
        Share(idr.ghName != "", idr.ghName, actor, rng),
        Share(RorKey(idr) != "", RorKey(idr), actor, rng));
    }
    d3
  }

  lemma ThreeShares<T>(l0: seq<T>, l1: seq<T>, l2: seq<T>, l3: seq<T>, s1: seq<T>, s2: seq<T>, s3: seq<T>)
    requires l1 == l0 + s1 && l2 == l1 + s2 && l3 == l2 + s3
    ensures l3 == l0 + (s1 + s2 + s3)
  {
  }

  lemma ActorsStep(items: seq<IdrangeItem>, i: nat, r: Dict<string, seq<(int, int)>>)
    requires i < |items| && ActorsOf(items, i, r)
    ensures ActorsOf(items, i + 1, AddItem(r, items[i]))
  {
    assert items[..i + 1] == items[..i] + [items[i]];
    assert items[..i + 1][..i] == items[..i];
  }

  /**
   * The `id_ranges_by_actor` table: for each ORCID, GitHub name and ROR ID that is set, the ranges
   * it owns in configuration order; every listed actor owns at least one range.
   */
  method IdRangesByActor(vocabs: Dict<string, Vocab>) returns (r: Dict<string, seq<(int, int)>>)
    ensures DistinctKeys(r)
    ensures forall actor :: Lookup(r, actor) == OwnedRanges(AllItems(vocabs), actor)
    ensures forall k :: 0 <= k < |r| ==> r[k].1 != []
  {
    var items := AllItems(vocabs);
    r := [];
    var i := 0;
    assert items[..0] == [];
    while i < |items|
      invariant i <= |items| && ActorsOf(items, i, r)
    {
      var idr := items[i];
      var rng := (idr.firstId, idr.lastId);
      ActorsStep(items, i, r);
      ghost var r0 := r;
      if idr.orcid.Some? && idr.orcid.value != "" {
        r := AppendTo(r, idr.orcid.value, rng);
      }
      assert r == AppendIf(r0, OrcidKey(idr) != "", OrcidKey(idr), rng);
      ghost var r1 := r;
      if idr.ghName != "" {
        r := AppendTo(r, idr.ghName, rng);
      }
      assert r == AppendIf(r1, idr.ghName != "", idr.ghName, rng);
      ghost var r2 := r;
      if idr.rorId.Some? && idr.rorId.value != "" {
        r := AppendTo(r, idr.rorId.value, rng);
      }
      assert r == AppendIf(r2, RorKey(idr) != "", RorKey(idr), rng);
      assert r == AddItem(r0, idr);
      i := i + 1;
    }
    assert items[..i] == items;
  }
}
