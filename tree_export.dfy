/**
 * The exports of the hierarchy tree of `util.py`: `as_dict`, `as_level_dict`, `as_narrower_dict`,
 * and the comparisons `__eq__` and `__lt__`. Each takes the forest and the node it is called on.
 */
module TreeExport {
  import opened Wrappers
  import opened Strings
  import opened Dicts
  import opened Tree

  /** The value of `as_dict()`: a leaf is its text; an inner node maps its text to its children's dicts. */
  datatype NodeDict = Leaf(text: string) | Branch(text: string, children: seq<NodeDict>)

  function DictText(d: NodeDict): string {
    d.text
  }

  /** The sort key `lambda child: child.text`, on node indices. */
  function TextKey(texts: seq<string>): nat -> string {
    (m: nat) => if m < |texts| then texts[m] else ""
  }

  /** A permutation of a node's children ranks above the node, as its children do. */
  lemma PermutedKidsRanked(kids: seq<seq<nat>>, rank: seq<nat>, n: nat, s: seq<nat>)
    requires n < |kids| == |rank| && KidsRanked(kids, rank, n) && multiset(s) == multiset(kids[n])
    ensures forall i :: 0 <= i < |s| ==> s[i] < |kids| && rank[n] < rank[s[i]]
  {
    forall i | 0 <= i < |s| ensures s[i] < |kids| && rank[n] < rank[s[i]] {
      assert s[i] in multiset(kids[n]);
      var k :| 0 <= k < |kids[n]| && kids[n][k] == s[i];
    }
  }

  /** The pairs `(text, level)` of the nodes `ms`. */
  function LevelPairs(texts: seq<string>, levels: seq<nat>, ms: seq<nat>): (r: seq<(string, nat)>)
    requires forall j :: 0 <= j < |ms| ==> ms[j] < |texts| && ms[j] < |levels|
    ensures |r| == |ms| && forall j :: 0 <= j < |ms| ==> r[j] == (texts[ms[j]], levels[ms[j]])
    decreases |ms|
  {
    if ms == [] then [] else [(texts[ms[0]], levels[ms[0]])] + LevelPairs(texts, levels, ms[1..])
  }

  lemma {:induction false} LevelPairsAppend(texts: seq<string>, levels: seq<nat>, a: seq<nat>, b: seq<nat>)
    requires forall j :: 0 <= j < |a| ==> a[j] < |texts| && a[j] < |levels|
    requires forall j :: 0 <= j < |b| ==> b[j] < |texts| && b[j] < |levels|
    ensures LevelPairs(texts, levels, a + b) == LevelPairs(texts, levels, a) + LevelPairs(texts, levels, b)
    decreases |a|
  {
    if a == [] {
      assert a + b == b;
    } else {
      assert (a + b)[0] == a[0] && (a + b)[1..] == a[1..] + b;
      LevelPairsAppend(texts, levels, a[1..], b);
    }
  }

  /** `sorted([c.text for c in node.children])` for node `m`. */
  function SortedChildTexts(texts: seq<string>, kids: seq<seq<nat>>, m: nat): (r: seq<string>)
    requires m < |kids|
    ensures SortedBy(r, Itself) && multiset(r) == multiset(MapSeq(TextKey(texts), kids[m]))
  {
    SortBySorted(MapSeq(TextKey(texts), kids[m]), Itself);
    SortBy(MapSeq(TextKey(texts), kids[m]), Itself)
  }

  /** The pairs `(text, sorted child texts)` of the nodes `ms`. */
  function NarrowerPairs(texts: seq<string>, kids: seq<seq<nat>>, ms: seq<nat>): (r: seq<(string, seq<string>)>)
    requires forall j :: 0 <= j < |ms| ==> ms[j] < |texts| && ms[j] < |kids|
    ensures |r| == |ms| && forall j :: 0 <= j < |ms| ==> r[j] == (texts[ms[j]], SortedChildTexts(texts, kids, ms[j]))
    decreases |ms|
  {
    if ms == [] then [] else [(texts[ms[0]], SortedChildTexts(texts, kids, ms[0]))] + NarrowerPairs(texts, kids, ms[1..])
  }

  lemma {:induction false} NarrowerPairsAppend(texts: seq<string>, kids: seq<seq<nat>>, a: seq<nat>, b: seq<nat>)
    requires forall j :: 0 <= j < |a| ==> a[j] < |texts| && a[j] < |kids|
    requires forall j :: 0 <= j < |b| ==> b[j] < |texts| && b[j] < |kids|
    ensures NarrowerPairs(texts, kids, a + b) == NarrowerPairs(texts, kids, a) + NarrowerPairs(texts, kids, b)
    decreases |a|
  {
    if a == [] {
      assert a + b == b;
    } else {
      assert (a + b)[0] == a[0] && (a + b)[1..] == a[1..] + b;
      NarrowerPairsAppend(texts, kids, a[1..], b);
    }
  }

  // -------------------------------------------------------------------------------------------
  // The exports

  /** The nodes `ns` all f.rank above `lo`. */
  ghost predicate Above(f: Forest, ns: seq<nat>, lo: nat)
    reads f
  {
    forall i :: 0 <= i < |ns| ==> ns[i] < |f.texts| && ns[i] < |f.rank| && lo < f.rank[ns[i]]
  }

  lemma AboveFrom(f: Forest, ns: seq<nat>, lo: nat, i: nat)
    requires Above(f, ns, lo) && i <= |ns|
    ensures Above(f, ns[i..], lo)
  {
    assert forall k :: 0 <= k < |ns| - i ==> ns[i..][k] == ns[i + k];
  }

  /** `sorted(self.children, key=lambda child: child.text)` of node `n`. */
  function SortedKids(f: Forest, n: nat): (s: seq<nat>)
    reads f
    requires f.Valid() && n < |f.texts|
    ensures multiset(s) == multiset(f.kids[n]) && SortedBy(s, TextKey(f.texts))
    ensures Above(f, s, f.rank[n])
  {
    SortBySorted(f.kids[n], TextKey(f.texts));
    assert KidsRanked(f.kids, f.rank, n);
    PermutedKidsRanked(f.kids, f.rank, n, SortBy(f.kids[n], TextKey(f.texts)));
    SortBy(f.kids[n], TextKey(f.texts))
  }

  /** The children of `n` in the order an export walks them: sorted by text, or as listed. */
  function OrderedKids(f: Forest, n: nat, sorted: bool): (s: seq<nat>)
    reads f
    requires f.Valid() && n < |f.texts|
    ensures multiset(s) == multiset(f.kids[n]) && Above(f, s, f.rank[n])
  {
    assert KidsRanked(f.kids, f.rank, n);
    if sorted then SortedKids(f, n) else f.kids[n]
  }

  /**
   * `as_dict()` of node `n`: a node without children gives its text; any other node maps its text
   * to the dicts of its children, sorted by their texts (`AsDictChildren`).
   */
  function AsDict(f: Forest, n: nat): (r: NodeDict)
    reads f
    requires f.Valid() && n < |f.texts|
    ensures r.text == f.texts[n] && (r.Leaf? <==> f.kids[n] == [])
    decreases f.bound - f.rank[n], 1, 0
  {
    if |f.kids[n]| > 0 then Branch(f.texts[n], AsDicts(f, SortedKids(f, n), f.rank[n])) else Leaf(f.texts[n])
  }

  /** The children of an inner node's dict are sorted by text and hold the texts of its children. */
  lemma AsDictChildren(f: Forest, n: nat)
    requires f.Valid() && n < |f.texts| && f.kids[n] != []
    ensures SortedBy(AsDict(f, n).children, DictText)
    ensures multiset(MapSeq(DictText, AsDict(f, n).children)) == multiset(MapSeq(TextKey(f.texts), f.kids[n]))
  {
    var s := SortedKids(f, n);
    var cs := AsDict(f, n).children;
    assert cs == AsDicts(f, s, f.rank[n]);
    AsDictsTexts(f, s, f.rank[n]);
    SortedMapped(s, TextKey(f.texts));
    SortedMapped(cs, DictText);
    MapPerm(TextKey(f.texts), s, f.kids[n]);
  }

  /** `[node.as_dict() for node in ns]`, for nodes ranked above `lo`. */
  function AsDicts(f: Forest, ns: seq<nat>, ghost lo: nat): (r: seq<NodeDict>)
    reads f
    requires f.Valid() && Above(f, ns, lo)
    ensures |r| == |ns| && forall i :: 0 <= i < |ns| ==> r[i] == AsDict(f, ns[i])
    decreases f.bound - lo, 0, |ns|
  {
    if ns == [] then [] else [AsDict(f, ns[0])] + AsDicts(f, ns[1..], lo)
  }

  /** The texts of the dicts of `ns` are the texts of `ns`. */
  lemma {:induction false} AsDictsTexts(f: Forest, ns: seq<nat>, lo: nat)
    requires f.Valid() && Above(f, ns, lo)
    ensures MapSeq(DictText, AsDicts(f, ns, lo)) == MapSeq(TextKey(f.texts), ns)
    decreases |ns|
  {
    if ns != [] {
      AsDictsTexts(f, ns[1..], lo);
    }
  }

  /** The nodes an export visits from `n`: `n` first, then the subtrees of its children in turn. */
  ghost function Visit(f: Forest, n: nat, sorted: bool): (r: seq<nat>)
    reads f
    requires f.Valid() && n < |f.texts|
    ensures r != [] && r[0] == n && forall j :: 0 <= j < |r| ==> r[j] < |f.texts|
    decreases f.bound - f.rank[n], 1, 0
  {
    [n] + VisitAll(f, OrderedKids(f, n, sorted), f.rank[n], sorted)
  }

  /** The visits of the nodes `ns`, one after the other. */
  ghost function VisitAll(f: Forest, ns: seq<nat>, lo: nat, sorted: bool): (r: seq<nat>)
    reads f
    requires f.Valid() && Above(f, ns, lo)
    ensures forall j :: 0 <= j < |r| ==> r[j] < |f.texts|
    decreases f.bound - lo, 0, |ns|
  {
    if ns == [] then [] else Visit(f, ns[0], sorted) + VisitAll(f, ns[1..], lo, sorted)
  }

  /** The visits of `ns[i..]` are that of `ns[i]`, then those of `ns[i + 1..]`. */
  lemma VisitAllStep(f: Forest, ns: seq<nat>, i: nat, lo: nat, sorted: bool)
    requires f.Valid() && i < |ns| && Above(f, ns, lo)
    ensures VisitAll(f, ns[i..], lo, sorted) == Visit(f, ns[i], sorted) + VisitAll(f, ns[i + 1..], lo, sorted)
  {
    assert ns[i..][0] == ns[i] && ns[i..][1..] == ns[i + 1..];
  }

  /** The assignments `as_level_dict` makes from `n`: `(text, level)` of the nodes in visit order. */
  ghost function LevelEntries(f: Forest, n: nat): seq<(string, nat)>
    reads f
    requires f.Valid() && n < |f.texts|
  {
    LevelPairs(f.texts, f.levels, Visit(f, n, true))
  }

  /** The assignments of the subtrees of `ns`, one after the other. */
  ghost function LevelEntriesAll(f: Forest, ns: seq<nat>, lo: nat): seq<(string, nat)>
    reads f
    requires f.Valid() && Above(f, ns, lo)
  {
    LevelPairs(f.texts, f.levels, VisitAll(f, ns, lo, true))
  }

  /** `as_level_dict` assigns the node's own pair first, then those of its children's subtrees. */
  lemma LevelEntriesOf(f: Forest, n: nat)
    requires f.Valid() && n < |f.texts|
    ensures LevelEntries(f, n) == [(f.texts[n], f.levels[n])] + LevelEntriesAll(f, SortedKids(f, n), f.rank[n])
  {
    LevelPairsAppend(f.texts, f.levels, [n], VisitAll(f, SortedKids(f, n), f.rank[n], true));
  }

  /** The assignments of the subtrees of `ns[i..]`: those of `ns[i]`, then the rest. */
  lemma LevelEntriesStep(f: Forest, ns: seq<nat>, i: nat, lo: nat)
    requires f.Valid() && i < |ns| && Above(f, ns, lo)
    ensures Above(f, ns[i..], lo) && Above(f, ns[i + 1..], lo)
    ensures LevelEntriesAll(f, ns[i..], lo) == LevelEntries(f, ns[i]) + LevelEntriesAll(f, ns[i + 1..], lo)
  {
    AboveFrom(f, ns, lo, i);
    AboveFrom(f, ns, lo, i + 1);
    VisitAllStep(f, ns, i, lo, true);
    LevelPairsAppend(f.texts, f.levels, Visit(f, ns[i], true), VisitAll(f, ns[i + 1..], lo, true));
  }

  /**
   * `as_level_dict(out)` on node `n`: `out[text] = level` for `n`, then the same for the subtree of
   * each child in sorted order; the result is `out` after those assignments.
   */
  method AsLevelDict(f: Forest, n: nat, out: Dict<string, nat>) returns (r: Dict<string, nat>)
    requires f.Valid() && n < |f.texts| && DistinctKeys(out)
    ensures DistinctKeys(r) && r == PutAll(out, LevelEntries(f, n))
    decreases f.bound - f.rank[n], 1
  {
    LevelEntriesOf(f, n);
    PutAllCons(out, (f.texts[n], f.levels[n]), LevelEntriesAll(f, SortedKids(f, n), f.rank[n]));
    if |f.kids[n]| > 0 {
      r := Put(out, f.texts[n], f.levels[n]);
      r := AsLevelDictKids(f, n, r);
    } else {
      assert SortedKids(f, n) == [] && LevelEntriesAll(f, SortedKids(f, n), f.rank[n]) == [];
      r := Put(out, f.texts[n], f.levels[n]);
    }
  }

  /** The loop of `as_level_dict` over the children of `n`, sorted by text. */
  method AsLevelDictKids(f: Forest, n: nat, r0: Dict<string, nat>) returns (r: Dict<string, nat>)
    requires f.Valid() && n < |f.texts| && DistinctKeys(r0)
    ensures DistinctKeys(r) && r == PutAll(r0, LevelEntriesAll(f, SortedKids(f, n), f.rank[n]))
    decreases f.bound - f.rank[n], 0
  {
    var s := SortedKids(f, n);
    r := r0;
    var i := 0;
    AboveFrom(f, s, f.rank[n], 0);
    while i < |s|
      invariant i <= |s| && DistinctKeys(r) && Above(f, s[i..], f.rank[n])
      invariant PutAll(r, LevelEntriesAll(f, s[i..], f.rank[n])) == PutAll(r0, LevelEntriesAll(f, s, f.rank[n]))
    {
      LevelEntriesStep(f, s, i, f.rank[n]);
      PutAllAppend(r, LevelEntries(f, s[i]), LevelEntriesAll(f, s[i + 1..], f.rank[n]));
      r := AsLevelDict(f, s[i], r);
      i := i + 1;
    }
    assert s[i..] == [];
  }

  /** The assignments `as_narrower_dict` makes from `n`: `(text, sorted child texts)` in visit order. */
  ghost function NarrowerEntries(f: Forest, n: nat): seq<(string, seq<string>)>
    reads f
    requires f.Valid() && n < |f.texts|
  {
    NarrowerPairs(f.texts, f.kids, Visit(f, n, false))
  }

  ghost function NarrowerEntriesAll(f: Forest, ns: seq<nat>, lo: nat): seq<(string, seq<string>)>
    reads f
    requires f.Valid() && Above(f, ns, lo)
  {
    NarrowerPairs(f.texts, f.kids, VisitAll(f, ns, lo, false))
  }

  /** `as_narrower_dict` assigns the node's own pair first, then those of its children's subtrees. */
  lemma NarrowerEntriesOf(f: Forest, n: nat)
    requires f.Valid() && n < |f.texts|
    ensures Above(f, f.kids[n], f.rank[n])
    ensures NarrowerEntries(f, n) == [(f.texts[n], SortedChildTexts(f.texts, f.kids, n))] + NarrowerEntriesAll(f, f.kids[n], f.rank[n])
  {
    assert KidsRanked(f.kids, f.rank, n);
    NarrowerPairsAppend(f.texts, f.kids, [n], VisitAll(f, f.kids[n], f.rank[n], false));
  }

  lemma NarrowerEntriesStep(f: Forest, ns: seq<nat>, i: nat, lo: nat)
    requires f.Valid() && i < |ns| && Above(f, ns, lo)
    ensures Above(f, ns[i..], lo) && Above(f, ns[i + 1..], lo)
    ensures NarrowerEntriesAll(f, ns[i..], lo) == NarrowerEntries(f, ns[i]) + NarrowerEntriesAll(f, ns[i + 1..], lo)
  {
    AboveFrom(f, ns, lo, i);
    AboveFrom(f, ns, lo, i + 1);
    VisitAllStep(f, ns, i, lo, false);
    NarrowerPairsAppend(f.texts, f.kids, Visit(f, ns[i], false), VisitAll(f, ns[i + 1..], lo, false));
  }

  /**
   * `as_narrower_dict(out)` on node `n`: `out[text]` becomes the sorted texts of the children of
   * `n` (`[]` for a leaf), then the same happens for the subtree of each child in listed order.
   */
  method AsNarrowerDict(f: Forest, n: nat, out: Dict<string, seq<string>>) returns (r: Dict<string, seq<string>>)
    requires f.Valid() && n < |f.texts| && DistinctKeys(out)
    ensures DistinctKeys(r) && r == PutAll(out, NarrowerEntries(f, n))
    decreases f.bound - f.rank[n], 1
  {
    NarrowerEntriesOf(f, n);
    var v := SortedChildTexts(f.texts, f.kids, n);
    PutAllCons(out, (f.texts[n], v), NarrowerEntriesAll(f, f.kids[n], f.rank[n]));
    if |f.kids[n]| > 0 {
      r := Put(out, f.texts[n], v);
      r := AsNarrowerDictKids(f, n, r);
    } else {
      assert v == [] && NarrowerEntriesAll(f, f.kids[n], f.rank[n]) == [];
      r := Put(out, f.texts[n], []);
    }
  }

  /** The loop of `as_narrower_dict` over the children of `n`, in listed order. */
  method AsNarrowerDictKids(f: Forest, n: nat, r0: Dict<string, seq<string>>) returns (r: Dict<string, seq<string>>)
    requires f.Valid() && n < |f.texts| && DistinctKeys(r0) && Above(f, f.kids[n], f.rank[n])
    ensures DistinctKeys(r) && r == PutAll(r0, NarrowerEntriesAll(f, f.kids[n], f.rank[n]))
    decreases f.bound - f.rank[n], 0
  {
    var s := f.kids[n];
    r := r0;
    var i := 0;
    AboveFrom(f, s, f.rank[n], 0);
    while i < |s|
      invariant i <= |s| && DistinctKeys(r) && Above(f, s[i..], f.rank[n])
      invariant PutAll(r, NarrowerEntriesAll(f, s[i..], f.rank[n])) == PutAll(r0, NarrowerEntriesAll(f, s, f.rank[n]))
    {
      NarrowerEntriesStep(f, s, i, f.rank[n]);
      PutAllAppend(r, NarrowerEntries(f, s[i]), NarrowerEntriesAll(f, s[i + 1..], f.rank[n]));
      r := AsNarrowerDict(f, s[i], r);
      i := i + 1;
    }
    assert s[i..] == [];
  }

  // -------------------------------------------------------------------------------------------
  // __eq__ and __lt__

  /** What the comparisons look at: `(text, level, children)`, children compared in turn. */
  datatype NodeVal = NodeVal(text: string, level: nat, children: seq<NodeVal>)

  /** The value of node `n`. */
  function Value(f: Forest, n: nat): (v: NodeVal)
    reads f
    requires f.Valid() && n < |f.texts|
    ensures v.text == f.texts[n] && v.level == f.levels[n] && |v.children| == |f.kids[n]|
    decreases f.bound - f.rank[n], 1
  {
    assert KidsRanked(f.kids, f.rank, n);
    NodeVal(f.texts[n], f.levels[n], Values(f, f.kids[n], f.rank[n]))
  }

  function Values(f: Forest, ns: seq<nat>, ghost lo: nat): (r: seq<NodeVal>)
    reads f
    requires f.Valid() && Above(f, ns, lo)
    ensures |r| == |ns| && forall i :: 0 <= i < |ns| ==> r[i] == Value(f, ns[i])
    decreases f.bound - lo, 0, |ns|
  {
    if ns == [] then [] else [Value(f, ns[0])] + Values(f, ns[1..], lo)
  }

  /**
   * `__eq__`: the tuples are equal when text and level are, and the children lists have the same
   * length and equal nodes at each place.
   */
  predicate Eq(a: NodeVal, b: NodeVal)
    decreases a
  {
    a.text == b.text && a.level == b.level && |a.children| == |b.children|
    && forall i :: 0 <= i < |a.children| ==> Eq(a.children[i], b.children[i])
  }

  /** The first place where two children lists hold nodes that are not equal, or the shorter length. */
  function FirstDiff(xs: seq<NodeVal>, ys: seq<NodeVal>): (k: nat)
    ensures k <= |xs| && k <= |ys| && forall i :: 0 <= i < k ==> Eq(xs[i], ys[i])
    ensures k < |xs| && k < |ys| ==> !Eq(xs[k], ys[k])
    decreases |xs|
  {
    if xs == [] || ys == [] || !Eq(xs[0], ys[0]) then 0
    else
      var k := FirstDiff(xs[1..], ys[1..]);
      assert forall i :: 1 <= i < k + 1 ==> xs[i] == xs[1..][i - 1] && ys[i] == ys[1..][i - 1];
      k + 1
  }

  /**
   * `__lt__`: tuples compare at their first unequal item; lists of children compare at their first
   * unequal pair of nodes, and a list that is a prefix of the other is the smaller one.
   */
  predicate Less(a: NodeVal, b: NodeVal)
    decreases a
  {
    if a.text != b.text then LexLess(a.text, b.text)
    else if a.level != b.level then a.level < b.level
    else
      var k := FirstDiff(a.children, b.children);
      if k < |a.children| && k < |b.children| then Less(a.children[k], b.children[k])
      else |a.children| < |b.children|
  }

  /** `==` of nodes is equality of their values. */
  lemma {:induction false} EqIsEquality(a: NodeVal, b: NodeVal)
    ensures Eq(a, b) <==> a == b
    decreases a
  {
    forall i | 0 <= i < |a.children| && i < |b.children|
      ensures Eq(a.children[i], b.children[i]) <==> a.children[i] == b.children[i]
    {
      EqIsEquality(a.children[i], b.children[i]);
    }
    if Eq(a, b) {
      assert a.children == b.children;
    }
  }

  /** No node is less than itself. */
  lemma LessIrreflexive(a: NodeVal)
    ensures !Less(a, a)
  {
    var k := FirstDiff(a.children, a.children);
    if k < |a.children| {
      EqIsEquality(a.children[k], a.children[k]);
    }
  }

  /** Of two nodes, at most one is less than the other. */
  lemma {:induction false} LessAsymmetric(a: NodeVal, b: NodeVal)
    requires Less(a, b)
    ensures !Less(b, a)
    decreases a
  {
    if a.text != b.text {
      LexLessAsymmetric(a.text, b.text);
    } else if a.level == b.level {
      var k := FirstDiff(a.children, b.children);
      EqSymmetric(a.children, b.children, k);
      if k < |a.children| && k < |b.children| {
        LessAsymmetric(a.children[k], b.children[k]);
      }
    }
  }

  /** Of two different nodes, one is less than the other. */
  lemma {:induction false} LessTotal(a: NodeVal, b: NodeVal)
    requires a != b
    ensures Less(a, b) || Less(b, a)
    decreases a
  {
    if a.text != b.text {
      LexLessTotal(a.text, b.text);
    } else if a.level == b.level {
      var k := FirstDiff(a.children, b.children);
      EqSymmetric(a.children, b.children, k);
      if k < |a.children| && k < |b.children| {
        EqIsEquality(a.children[k], b.children[k]);
        LessTotal(a.children[k], b.children[k]);
      } else {
        forall i | 0 <= i < k ensures a.children[i] == b.children[i] {
          EqIsEquality(a.children[i], b.children[i]);
        }
        assert |a.children| != |b.children|;
      }
    }
  }

  /** `<` of nodes is transitive. */
  lemma {:induction false} LessTransitive(a: NodeVal, b: NodeVal, c: NodeVal)
    requires Less(a, b) && Less(b, c)
    ensures Less(a, c)
    decreases a
  {
    if a.text != b.text && b.text != c.text {
      LexLessTrans(a.text, b.text, c.text);
    } else if a.text == b.text && b.text == c.text && a.level == b.level && b.level == c.level {
      var xs, ys, zs := a.children, b.children, c.children;
      var k1, k2 := FirstDiff(xs, ys), FirstDiff(ys, zs);
      if k1 == k2 && k1 < |xs| && k1 < |ys| && k1 < |zs| {
        LessTransitive(xs[k1], ys[k1], zs[k1]);
      }
      ListLessTransitive(xs, ys, zs);
    }
  }

  /** `<` of children lists, as `Less` compares them. */
  predicate ListLess(xs: seq<NodeVal>, ys: seq<NodeVal>) {
    var k := FirstDiff(xs, ys);
    if k < |xs| && k < |ys| then Less(xs[k], ys[k]) else |xs| < |ys|
  }

  /** The list step of `LessTransitive`, given the step for the nodes at a common first unequal place. */
  lemma ListLessTransitive(xs: seq<NodeVal>, ys: seq<NodeVal>, zs: seq<NodeVal>)
    requires ListLess(xs, ys) && ListLess(ys, zs)
    requires var k1, k2 := FirstDiff(xs, ys), FirstDiff(ys, zs);
             k1 == k2 && k1 < |xs| && k1 < |ys| && k1 < |zs| ==> Less(xs[k1], zs[k1])
    ensures ListLess(xs, zs)
  {
    var k1, k2 := FirstDiff(xs, ys), FirstDiff(ys, zs);
    var k := if k1 < k2 then k1 else k2;
    forall i | 0 <= i < k ensures Eq(xs[i], zs[i]) {
      EqIsEquality(xs[i], ys[i]);
      EqIsEquality(ys[i], zs[i]);
      EqIsEquality(xs[i], zs[i]);
    }
    if k < |xs| && k < |zs| {
      if k1 < k2 {
        EqIsEquality(ys[k], zs[k]);
        EqIsEquality(xs[k], ys[k]);
        EqIsEquality(xs[k], zs[k]);
      } else if k2 < k1 {
        EqIsEquality(xs[k], ys[k]);
        EqIsEquality(ys[k], zs[k]);
        EqIsEquality(xs[k], zs[k]);
      } else {
        LessIrreflexive(xs[k]);
        EqIsEquality(xs[k], zs[k]);
      }
      FirstDiffAt(xs, zs, k);
    } else {
      FirstDiffAt(xs, zs, k);
    }
  }

  /** The first unequal place does not depend on the order of the lists. */
  lemma EqSymmetric(xs: seq<NodeVal>, ys: seq<NodeVal>, k: nat)
    requires k == FirstDiff(xs, ys)
    ensures FirstDiff(ys, xs) == k
  {
    forall i | 0 <= i < |xs| && i < |ys| ensures Eq(xs[i], ys[i]) <==> Eq(ys[i], xs[i]) {
      EqIsEquality(xs[i], ys[i]);
      EqIsEquality(ys[i], xs[i]);
    }
    FirstDiffAt(ys, xs, k);
  }

  /** `FirstDiff` is the place its contract describes. */
  lemma {:induction false} FirstDiffAt(xs: seq<NodeVal>, ys: seq<NodeVal>, k: nat)
    requires k <= |xs| && k <= |ys| && forall i :: 0 <= i < k ==> Eq(xs[i], ys[i])
    requires k < |xs| && k < |ys| ==> !Eq(xs[k], ys[k])
    ensures FirstDiff(xs, ys) == k
    decreases |xs|
  {
    if k > 0 {
      assert forall i :: 0 <= i < k - 1 ==> xs[1..][i] == xs[i + 1] && ys[1..][i] == ys[i + 1];
      FirstDiffAt(xs[1..], ys[1..], k - 1);
    }
  }

  /** `node_a == node_b` on two nodes of the forest. */
  predicate Equal(f: Forest, m: nat, n: nat)
    reads f
    requires f.Valid() && m < |f.texts| && n < |f.texts|
  {
    Eq(Value(f, m), Value(f, n))
  }

  /** `node_a < node_b` on two nodes of the forest. */
  predicate LessThan(f: Forest, m: nat, n: nat)
    reads f
    requires f.Valid() && m < |f.texts| && n < |f.texts|
  {
    Less(Value(f, m), Value(f, n))
  }

  /** Two nodes are equal exactly when their texts, levels and children's values, in order, are. */
  lemma EqualMeans(f: Forest, m: nat, n: nat)
    requires f.Valid() && m < |f.texts| && n < |f.texts|
    ensures Equal(f, m, n) <==> Value(f, m) == Value(f, n)
    ensures Equal(f, m, n) ==> f.texts[m] == f.texts[n] && f.levels[m] == f.levels[n] && |f.kids[m]| == |f.kids[n]|
  {
    EqIsEquality(Value(f, m), Value(f, n));
  }
}
