/**
 * The CI workflow checks of `checks.py`: the ID-range presence check, the inbox file count, the
 * vocabulary-name checks and the forbidden-removal rule. The configuration, the globbed file lists and
 * the graph difference are inputs.
 */
module Checks {
  import opened Wrappers
  import opened Strings
  import opened Paths
  import opened Dicts
  import opened Config

  datatype CheckError =
    | NoIdrange(vocab: string)                                // "Config for vocabulary %s has no section [vocabs.*.id_range]."
    | TooManyInboxFiles(inboxDir: string, count: nat)         // "The single vocabulary option is active but ..."
    | InboxNameMismatch(inboxFile: string, vocabName: string) // "The file in inbox ... must match the vocabulary name ..."
    | VocabNotInConfig(name: string, vocabDir: string)        // "Vocabulary ... must be also present in config."
    | NewVocabNotInConfig(name: string, inboxDir: string)     // "New vocabulary ... must be also present in config."
    | MissingIdrangeConfig(names: seq<string>)                // "Missing vocabulary id_range config for ..."
    | ForbiddenRemoval(removed: nat)                          // "Forbidden removal of N concepts/collections detected."

  // ---------------------------------------------------------------------------------------------
  // ID ranges and inbox size

  /** `validate_config_has_idrange`: a detailed configuration must give the vocabulary an ID range. */
  function ValidateConfigHasIdrange(cfg: IdrangeConfig, vocabName: string): (r: Option<CheckError>)
    ensures r.Some? <==> !cfg.defaultConfig
                         && (vocabName !in Keys(cfg.vocabs)
                             || cfg.vocabs[IndexOf(Keys(cfg.vocabs), vocabName)].1.idRange == [])
    ensures r.Some? ==> r.value == NoIdrange(vocabName)
  {
    if cfg.defaultConfig then None
    else
      match Get(cfg.vocabs, vocabName)
      case None => Some(NoIdrange(vocabName))
      case Some(voc) =>
        if voc.idRange == [] then Some(NoIdrange(vocabName)) else None
  }

  /** Without a configuration file there is nothing to check, whatever the vocabulary. */
  lemma DefaultConfigHasNoIdrangeError(vocabName: string)
    ensures ValidateConfigHasIdrange(DefaultConfig, vocabName).None?
  {
  }

  /** A configured vocabulary with at least one ID range passes. */
  lemma ConfiguredRangePasses(cfg: IdrangeConfig, vocabName: string, voc: Vocab)
    requires DistinctKeys(cfg.vocabs) && (vocabName, voc) in cfg.vocabs && voc.idRange != []
    ensures ValidateConfigHasIdrange(cfg, vocabName).None?
  {
    var g := Get(cfg.vocabs, vocabName);
    var j :| 0 <= j < |cfg.vocabs| && cfg.vocabs[j] == (vocabName, voc);
    assert vocabName == Keys(cfg.vocabs)[j];
    var i :| 0 <= i < |cfg.vocabs| && cfg.vocabs[i] == (vocabName, g.value);
    assert i == j;
  }

  /** `check_number_of_files_in_inbox`, for the `*.xlsx` files found in the inbox. */
  function CheckNumberOfFilesInInbox(cfg: IdrangeConfig, inboxDir: string, inboxFiles: seq<string>)
    : (r: Option<CheckError>)
    ensures r.Some? <==> cfg.singleVocab && |inboxFiles| > 1
    ensures r.Some? ==> r.value.TooManyInboxFiles? && r.value.count == |inboxFiles| && r.value.count >= 2
  {
    if cfg.singleVocab && |inboxFiles| > 1 then Some(TooManyInboxFiles(inboxDir, |inboxFiles|)) else None
  }

  // ---------------------------------------------------------------------------------------------
  // Vocabulary names

  /** `Path(fp).stem.lower()`. */
  function StemName(fp: string): string {
    Lower(Stem(FileName(fp)))
  }

  /** `list({Path(fp).stem.lower() for fp in files})`, listed in first-occurrence order. */
  function StemNames(files: seq<string>): (r: seq<string>)
    ensures forall i :: 0 <= i < |files| ==> StemName(files[i]) in r
    ensures forall x :: x in r ==> exists i :: 0 <= i < |files| && x == StemName(files[i])
    ensures forall i, j :: 0 <= i < j < |r| ==> r[i] != r[j]
    ensures |r| <= |files|
  {
    var all := seq(|files|, i requires 0 <= i < |files| => StemName(files[i]));
    DedupStems(files, all);
    Dedup(all)
  }

  /** The names of `all`, one per file, become the names of the deduplicated list. */
  lemma DedupStems(files: seq<string>, all: seq<string>)
    requires |all| == |files| && forall i :: 0 <= i < |files| ==> all[i] == StemName(files[i])
    ensures var r := Dedup(all);
            (forall i :: 0 <= i < |files| ==> StemName(files[i]) in r)
            && (forall x :: x in r ==> exists i :: 0 <= i < |files| && x == StemName(files[i]))
            && (forall i, j :: 0 <= i < j < |r| ==> r[i] != r[j])
            && |r| <= |files|
  {
    var r := Dedup(all);
    forall i | 0 <= i < |files| ensures StemName(files[i]) in r {
      assert all[i] in all;
    }
    forall x | x in r ensures exists i :: 0 <= i < |files| && x == StemName(files[i]) {
      assert x in all;
      var i :| 0 <= i < |all| && all[i] == x;
      assert x == StemName(files[i]);
    }
  }

  /** `[name.lower() for name in config.IDRANGES.vocabs]`. */
  function ConfigNames(cfg: IdrangeConfig): (r: seq<string>)
    ensures |r| == |cfg.vocabs| && forall i :: 0 <= i < |r| ==> r[i] == Lower(cfg.vocabs[i].0)
  {
    seq(|cfg.vocabs|, i requires 0 <= i < |cfg.vocabs| => Lower(cfg.vocabs[i].0))
  }

  /** `[name for name in names if name not in known]`. */
  function NotIn(names: seq<string>, known: seq<string>): (r: seq<string>)
    ensures |r| <= |names|
    ensures forall x :: x in r <==> x in names && x !in known
  {
    if names == [] then []
    else if names[0] in known then NotIn(names[1..], known)
    else [names[0]] + NotIn(names[1..], known)
  }

  /** Filtering keeps the order of the chained lists: vocabulary names first, then inbox names. */
  lemma {:induction false} NotInAppend(a: seq<string>, b: seq<string>, known: seq<string>)
    ensures NotIn(a + b, known) == NotIn(a, known) + NotIn(b, known)
    decreases |a|
  {
    if a == [] {
      assert a + b == b;
    } else {
      assert (a + b)[1..] == a[1..] + b;
      NotInAppend(a[1..], b, known);
    }
  }

  /** The single-vocabulary rule: one vocabulary file and one inbox file must have the same stem. */
  predicate Mismatch(cfg: IdrangeConfig, vocabNames: seq<string>, inboxNames: seq<string>) {
    cfg.singleVocab && |vocabNames| == 1 && |inboxNames| == 1 && vocabNames[0] != inboxNames[0]
  }

  /** The list holds exactly one name, and that name is not configured. */
  predicate LoneUnknown(names: seq<string>, known: seq<string>) {
    |names| == 1 && names[0] !in known
  }

  /** Every name is a configured vocabulary. */
  predicate AllKnown(names: seq<string>, known: seq<string>) {
    forall x :: x in names ==> x in known
  }

  /** The decisions of the name check, in the order of the source, on the deduplicated name lists. */
  function CheckNames(cfg: IdrangeConfig, vocabDir: string, inboxDir: string, inboxFiles: seq<string>,
                      vocabNames: seq<string>, inboxNames: seq<string>): (r: Option<CheckError>)
    requires |inboxNames| <= |inboxFiles|
    ensures r.None? <==> !Mismatch(cfg, vocabNames, inboxNames)
                         && AllKnown(vocabNames, ConfigNames(cfg)) && AllKnown(inboxNames, ConfigNames(cfg))
    ensures r.Some? && Mismatch(cfg, vocabNames, inboxNames) ==>
              r.value == InboxNameMismatch(inboxFiles[0], vocabNames[0])
    ensures r.Some? && r.value.InboxNameMismatch? ==> Mismatch(cfg, vocabNames, inboxNames)
    ensures r.Some? && r.value.VocabNotInConfig? <==>
              !Mismatch(cfg, vocabNames, inboxNames) && LoneUnknown(vocabNames, ConfigNames(cfg))
    ensures r.Some? && r.value.VocabNotInConfig? ==> r.value == VocabNotInConfig(vocabNames[0], vocabDir)
    ensures r.Some? && r.value.NewVocabNotInConfig? <==>
              !Mismatch(cfg, vocabNames, inboxNames) && !LoneUnknown(vocabNames, ConfigNames(cfg))
              && LoneUnknown(inboxNames, ConfigNames(cfg))
    ensures r.Some? && r.value.NewVocabNotInConfig? ==> r.value == NewVocabNotInConfig(inboxNames[0], inboxDir)
    ensures r.Some? ==> r.value.InboxNameMismatch? || r.value.VocabNotInConfig?
                        || r.value.NewVocabNotInConfig? || r.value.MissingIdrangeConfig?
    ensures r.Some? && r.value.MissingIdrangeConfig? ==>
              r.value.names != []
              && !Mismatch(cfg, vocabNames, inboxNames)
              && !LoneUnknown(vocabNames, ConfigNames(cfg)) && !LoneUnknown(inboxNames, ConfigNames(cfg))
              && forall x :: x in r.value.names <==> (x in vocabNames || x in inboxNames) && x !in ConfigNames(cfg)
  {
    var known := ConfigNames(cfg);
    if Mismatch(cfg, vocabNames, inboxNames) then Some(InboxNameMismatch(inboxFiles[0], vocabNames[0]))
    else if LoneUnknown(vocabNames, known) then Some(VocabNotInConfig(vocabNames[0], vocabDir))
    else if LoneUnknown(inboxNames, known) then Some(NewVocabNotInConfig(inboxNames[0], inboxDir))
    else
      var missing := NotIn(vocabNames + inboxNames, known);
      assert forall x :: x in vocabNames + inboxNames <==> x in vocabNames || x in inboxNames;
      if missing != [] then
        assert missing[0] in missing;
        Some(MissingIdrangeConfig(missing))
      else
        assert forall x :: x in vocabNames ==> x !in known ==> x in missing;
        assert forall x :: x in inboxNames ==> x !in known ==> x in missing;
        None
  }

  /**
   * `validate_vocabulary_files_for_ci_workflow` on the globbed `*.ttl` files of the vocabulary
   * directory and `*.xlsx` files of the inbox: it passes without a detailed configuration, and else
   * exactly when every stem is configured and the single-vocabulary rule holds.
   */
  function ValidateVocabularyFilesForCi(cfg: IdrangeConfig, vocabDir: string, inboxDir: string,
                                        vocabFiles: seq<string>, inboxFiles: seq<string>): (r: Option<CheckError>)
    ensures r.None? <==> cfg.defaultConfig || cfg.vocabs == []
                         || (!Mismatch(cfg, StemNames(vocabFiles), StemNames(inboxFiles))
                             && AllKnown(StemNames(vocabFiles), ConfigNames(cfg))
                             && AllKnown(StemNames(inboxFiles), ConfigNames(cfg)))
    ensures r.Some? ==> r == CheckNames(cfg, vocabDir, inboxDir, inboxFiles, StemNames(vocabFiles), StemNames(inboxFiles))
  {
    if cfg.defaultConfig || cfg.vocabs == [] then None
    else CheckNames(cfg, vocabDir, inboxDir, inboxFiles, StemNames(vocabFiles), StemNames(inboxFiles))
  }

  /** A lone vocabulary file that is not configured is reported by name, before any inbox file. */
  lemma LoneVocabReportedFirst(cfg: IdrangeConfig, vocabDir: string, inboxDir: string, inboxFiles: seq<string>,
                               vocabNames: seq<string>, inboxNames: seq<string>)
    requires |inboxNames| <= |inboxFiles|
    requires !Mismatch(cfg, vocabNames, inboxNames)
    requires |vocabNames| == 1 && vocabNames[0] !in ConfigNames(cfg)
    ensures CheckNames(cfg, vocabDir, inboxDir, inboxFiles, vocabNames, inboxNames)
            == Some(VocabNotInConfig(vocabNames[0], vocabDir))
  {
  }

  /** A lone inbox file that is not configured is reported as a new vocabulary, once the vocabulary files pass. */
  lemma LoneInboxReportedThird(cfg: IdrangeConfig, vocabDir: string, inboxDir: string, inboxFiles: seq<string>,
                               vocabNames: seq<string>, inboxNames: seq<string>)
    requires |inboxNames| <= |inboxFiles|
    requires !Mismatch(cfg, vocabNames, inboxNames) && !LoneUnknown(vocabNames, ConfigNames(cfg))
    requires |inboxNames| == 1 && inboxNames[0] !in ConfigNames(cfg)
    ensures CheckNames(cfg, vocabDir, inboxDir, inboxFiles, vocabNames, inboxNames)
            == Some(NewVocabNotInConfig(inboxNames[0], inboxDir))
  {
  }

  /** Files whose paths differ only in directory, ASCII case or suffix count as one vocabulary. */
  lemma SameStemCounted(files: seq<string>, name: string)
    requires files != [] && forall i :: 0 <= i < |files| ==> StemName(files[i]) == name
    ensures StemNames(files) == [name]
  {
    var all := seq(|files|, i requires 0 <= i < |files| => StemName(files[i]));
    DedupConstant(all, name);
  }

  lemma {:induction false} DedupConstant(xs: seq<string>, x: string)
    requires xs != [] && forall i :: 0 <= i < |xs| ==> xs[i] == x
    ensures Dedup(xs) == [x]
  {
    if |xs| > 1 {
      DedupConstant(xs[..|xs| - 1], x);
    }
  }

  // ---------------------------------------------------------------------------------------------
  // Removed concepts and collections

  /** A triple of the graph difference; subject, predicate and object as IRIs. */
  type Triple = (string, string, string)

  const RdfType := "http://www.w3.org/1999/02/22-rdf-syntax-ns#type"
  const SkosConcept := "http://www.w3.org/2004/02/skos/core#Concept"
  const SkosCollection := "http://www.w3.org/2004/02/skos/core#Collection"

  /** How many of `triples` say that their subject has the type `cls`. */
  function CountTyped(triples: seq<Triple>, cls: string): (r: nat)
    ensures r <= |triples|
  {
    if triples == [] then 0
    else CountTyped(triples[..|triples| - 1], cls)
         + (if triples[|triples| - 1].1 == RdfType && triples[|triples| - 1].2 == cls then 1 else 0)
  }

  /** The count is positive exactly when some triple types a subject with `cls`. */
  lemma {:induction false} CountTypedPositive(triples: seq<Triple>, cls: string)
    ensures CountTyped(triples, cls) > 0 <==>
            exists i :: 0 <= i < |triples| && triples[i].1 == RdfType && triples[i].2 == cls
  {
    if triples != [] {
      var init := triples[..|triples| - 1];
      CountTypedPositive(init, cls);
      if exists i :: 0 <= i < |init| && init[i].1 == RdfType && init[i].2 == cls {
        var i :| 0 <= i < |init| && init[i].1 == RdfType && init[i].2 == cls;
        assert triples[i] == init[i];
      }
      if exists i :: 0 <= i < |triples| && triples[i].1 == RdfType && triples[i].2 == cls {
        var i :| 0 <= i < |triples| && triples[i].1 == RdfType && triples[i].2 == cls;
        if i < |init| {
          assert init[i] == triples[i];
        }
      }
    }
  }

  /** `voc.checks.allow_delete` for the vocabulary named by the previous file's stem, else false. */
  function DeleteAllowed(cfg: IdrangeConfig, stem: string): (r: bool)
    ensures r ==> exists i :: 0 <= i < |cfg.vocabs| && cfg.vocabs[i].0 == stem && cfg.vocabs[i].1.checks.allowDelete
    ensures DistinctKeys(cfg.vocabs) ==>
              (r <==> exists i :: 0 <= i < |cfg.vocabs| && cfg.vocabs[i].0 == stem && cfg.vocabs[i].1.checks.allowDelete)
  {
    DeleteAllowedEntry(cfg, stem);
    match Get(cfg.vocabs, stem)
    case None => false
    case Some(voc) => voc.checks.allowDelete
  }

  /** With distinct keys, a configured entry for the stem is the one `Get` finds. */
  lemma DeleteAllowedEntry(cfg: IdrangeConfig, stem: string)
    ensures DistinctKeys(cfg.vocabs) && (exists i :: 0 <= i < |cfg.vocabs| && cfg.vocabs[i].0 == stem && cfg.vocabs[i].1.checks.allowDelete)
            ==> Get(cfg.vocabs, stem).Some? && Get(cfg.vocabs, stem).value.checks.allowDelete
  {
    if DistinctKeys(cfg.vocabs) && exists i :: 0 <= i < |cfg.vocabs| && cfg.vocabs[i].0 == stem && cfg.vocabs[i].1.checks.allowDelete {
      var i :| 0 <= i < |cfg.vocabs| && cfg.vocabs[i].0 == stem && cfg.vocabs[i].1.checks.allowDelete;
      GetAt(cfg.vocabs, i);
    }
  }

  /** A validated configuration has lower-case keys, so a stem with an upper-case letter never allows deletion. */
  lemma MixedCaseStemForbidsDelete(singleVocab: bool, raw: Dict<string, Vocab>, defaultConfig: bool, stem: string)
    requires ValidateConfig(singleVocab, raw, defaultConfig).Success?
    requires !IsLower(stem)
    ensures !DeleteAllowed(ValidateConfig(singleVocab, raw, defaultConfig).value, stem)
  {
  }

  /** The count of removed concepts and collections in the triples only in the previous graph. */
  function Removed(inPrev: seq<Triple>): nat {
    CountTyped(inPrev, SkosConcept) + CountTyped(inPrev, SkosCollection)
  }

  /**
   * `check_for_removed_iris` after the graph difference: `inPrev` holds the triples only in the previous
   * version, whose file stem is `prevStem`.
   */
  method CheckForRemovedIris(prevStem: string, inPrev: seq<Triple>, cfg: IdrangeConfig) returns (r: Option<CheckError>)
    ensures r.Some? <==> !DeleteAllowed(cfg, prevStem) && Removed(inPrev) > 0
    ensures r.Some? ==> r.value == ForbiddenRemoval(Removed(inPrev))
  {
    var deleteAllowed := DeleteAllowed(cfg, prevStem);
    r := None;
    if inPrev != [] {
      var removed := 0;
      var i := 0;
      while i < |inPrev|
        invariant i <= |inPrev| && removed == CountTyped(inPrev[..i], SkosConcept)
      {
        assert inPrev[..i + 1][..i] == inPrev[..i];
        if inPrev[i].1 == RdfType && inPrev[i].2 == SkosConcept {
          removed := removed + 1;
        }
        i := i + 1;
      }
      assert inPrev[..i] == inPrev;
      var j := 0;
      while j < |inPrev|
        invariant j <= |inPrev| && removed == CountTyped(inPrev, SkosConcept) + CountTyped(inPrev[..j], SkosCollection)
      {
        assert inPrev[..j + 1][..j] == inPrev[..j];
        if inPrev[j].1 == RdfType && inPrev[j].2 == SkosCollection {
          removed := removed + 1;
        }
        j := j + 1;
      }
      assert inPrev[..j] == inPrev;
      if !deleteAllowed && removed > 0 {
        r := Some(ForbiddenRemoval(removed));
      }
    }
  }

  /** A removal is forbidden exactly when deletion is not allowed and a typed Concept or Collection vanished. */
  lemma RemovalForbiddenIff(cfg: IdrangeConfig, prevStem: string, inPrev: seq<Triple>)
    ensures (!DeleteAllowed(cfg, prevStem) && Removed(inPrev) > 0) <==>
            !DeleteAllowed(cfg, prevStem)
            && exists i :: 0 <= i < |inPrev| && inPrev[i].1 == RdfType
                            && (inPrev[i].2 == SkosConcept || inPrev[i].2 == SkosCollection)
  {
    CountTypedPositive(inPrev, SkosConcept);
    CountTypedPositive(inPrev, SkosCollection);
  }
}
