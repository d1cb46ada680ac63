/**
 * The factory functions of `util.py`: `build_tree` makes a tree from indented text and
 * `build_from_narrower` from a narrower dictionary. Both make their root node in the given forest
 * and return its index; an exception becomes a `Failure`, and the nodes made before it stay in the
 * forest, unreachable from any root a caller holds.
 */
module TreeBuild {
  import opened Wrappers
  import opened Strings
  import opened Dicts
  import opened Tree
  import opened Narrower

  // ---------------------------------------------------------------------------------------------
  // build_tree

  /** `[line for line in ls if line.strip()]`. */
  function NonBlank(ls: seq<string>): (r: seq<string>)
    ensures |r| <= |ls|
    decreases |ls|
  {
    if ls == [] then []
    else if Strip(ls[0]) != "" then [ls[0]] + NonBlank(ls[1..])
    else NonBlank(ls[1..])
  }

  /** The lines kept are exactly the lines that hold more than whitespace. */
  lemma {:induction false} NonBlankMembers(ls: seq<string>)
    ensures forall l :: l in NonBlank(ls) <==> l in ls && Strip(l) != ""
    decreases |ls|
  {
    if ls != [] {
      NonBlankMembers(ls[1..]);
      assert forall l :: l in ls <==> l == ls[0] || l in ls[1..];
    }
  }

  /** The lines of the text that become nodes. */
  function Lines(text: string): seq<string> {
    NonBlank(SplitLines(text))
  }

  /** Without blank lines, nothing is dropped. */
  lemma {:induction false} NonBlankAll(ls: seq<string>)
    requires forall k :: 0 <= k < |ls| ==> Strip(ls[k]) != ""
    ensures NonBlank(ls) == ls
    decreases |ls|
  {
    if ls != [] {
      NonBlankAll(ls[1..]);
    }
  }

  /**
   * On a text whose only line boundaries are "\n", with no blank line and no boundary at the end,
   * the node lines joined by "\n" give the text back.
   */
  lemma LinesJoin(text: string)
    requires forall k :: 0 <= k < |text| ==> text[k] == '\n' || !IsLineBreak(text[k])
    requires text == [] || text[|text| - 1] != '\n'
    requires forall l :: l in SplitLines(text) ==> Strip(l) != ""
    ensures Join(Lines(text), "\n") == text
  {
    NonBlankAll(SplitLines(text));
    SplitLinesJoin(text);
  }

  /** The texts of `Node(line)` for the lines, in order. */
  function NodeTexts(ls: seq<string>): (r: seq<string>)
    ensures |r| == |ls|
  {
    if ls == [] then [] else NodeTexts(ls[..|ls| - 1]) + [NodeText(ls[|ls| - 1], " ")]
  }

  /** The levels of `Node(line)` for the lines, in order. */
  function NodeLevels(ls: seq<string>): (r: seq<nat>)
    ensures |r| == |ls|
  {
    if ls == [] then [] else NodeLevels(ls[..|ls| - 1]) + [NodeLevel(ls[|ls| - 1], " ")]
  }

  /** Entry `k` of `NodeTexts` is the text of line `k`. */
  lemma {:induction false} NodeTextsAt(ls: seq<string>)
    ensures forall k :: 0 <= k < |ls| ==> NodeTexts(ls)[k] == NodeText(ls[k], " ")
    decreases |ls|
  {
    if ls != [] {
      var init := ls[..|ls| - 1];
      NodeTextsAt(init);
      assert forall k :: 0 <= k < |init| ==> init[k] == ls[k];
    }
  }

  /** Entry `k` of `NodeLevels` is the level of line `k`. */
  lemma {:induction false} NodeLevelsAt(ls: seq<string>)
    ensures forall k :: 0 <= k < |ls| ==> NodeLevels(ls)[k] == NodeLevel(ls[k], " ")
    decreases |ls|
  {
    if ls != [] {
      var init := ls[..|ls| - 1];
      NodeLevelsAt(init);
      assert forall k :: 0 <= k < |init| ==> init[k] == ls[k];
    }
  }

  /** The indices `lo`, `lo + 1`, ... of `n` nodes made one after the other. */
  function Span(lo: nat, n: nat): (r: seq<nat>)
    ensures |r| == n && forall k :: 0 <= k < n ==> r[k] == lo + k
  {
    seq(n, k requires 0 <= k < n => lo + k)
  }

  /**
   * `build_tree(text, sep)`: the root `Node("root", sep)`, then one `Node(line)` per non-blank
   * line, with the default separator " " whatever `sep` is, and `add_children` of them all to the
   * root. An empty separator raises before any node is made.
   */
  method BuildTree(f: Forest, text: string, sep: string) returns (r: Result<nat, TreeError>)
    requires f.Valid()
    modifies f
    ensures f.Valid()
    ensures sep == "" ==> r == Failure(EmptySeparator) && f.texts == old(f.texts) && f.levels == old(f.levels)
                          && f.kids == old(f.kids)
    ensures sep != "" ==>
              var ls, root := Lines(text), old(|f.texts|);
              f.texts == old(f.texts) + [NodeText("root", sep)] + NodeTexts(ls)
              && f.levels == old(f.levels) + [NodeLevel("root", sep)] + NodeLevels(ls)
              && |f.kids| == root + 1 + |ls| && f.kids[..root] == old(f.kids)
              && (r.Success? ==> r.value == root)
              && BuiltTree(f.texts, f.levels, f.kids, root, |ls|, r)
  {
    if sep == "" {
      return Failure(EmptySeparator);
    }
    var root := f.NewNode("root", sep);
    var ls := Lines(text);
    ghost var texts1, levels1, kids1 := f.texts, f.levels, f.kids;
    var ns := NewNodes(f, ls);
    ghost var kids2 := f.kids;
    r := AttachLines(f, root, ls, ns, texts1, levels1, kids1);
    assert f.kids[..root] == old(f.kids) by {
      assert kids2[..root + 1] == kids1 && kids1[..root] == old(f.kids);
      assert kids2[..root] == kids2[..root + 1][..root];
    }
  }

  /** `root.add_children(nodes)` for the nodes `NewNodes` made after the root. */
  method AttachLines(f: Forest, root: nat, ls: seq<string>, ns: seq<nat>,
                     ghost texts1: seq<string>, ghost levels1: seq<nat>, ghost kids1: seq<seq<nat>>)
    returns (r: Result<nat, TreeError>)
    requires f.Valid() && |texts1| == |levels1| == |kids1| == root + 1 && kids1[root] == []
    requires Made(f.texts, f.levels, f.kids, texts1, levels1, kids1, ls, ns)
    modifies f
    ensures f.Valid() && f.texts == old(f.texts) && f.levels == old(f.levels)
    ensures |f.kids| == root + 1 + |ls| && f.kids[..root] == old(f.kids)[..root]
    ensures r.Success? ==> r.value == root
    ensures BuiltTree(f.texts, f.levels, f.kids, root, |ls|, r)
  {
    ghost var texts2, levels2, kids2 := f.texts, f.levels, f.kids;
    assert forall k :: 0 <= k < |ns| ==> ns[k] < |f.texts| && ns[k] != root && f.kids[ns[k]] == [] by {
      MadeFacts(texts1, levels1, kids1, texts2, levels2, kids2, ls, ns, root);
    }
    assert NoRepeats(ns) by {
      SpanNoRepeats(root + 1, |ls|);
    }
    assert |ns| == |ls| && ns == Span(root + 1, |ns|) && |kids2| == root + 1 + |ns|;
    assert forall x :: root <= x < |kids2| ==> kids2[x] == [] by {
      MadeFacts(texts1, levels1, kids1, texts2, levels2, kids2, ls, ns, root);
    }
    var e := f.AddChildren(root, ns);
    r := if e.Some? then Failure(e.value) else Success(root);
    AddedToRoot(texts2, levels2, kids2, f.kids, root, ns, e, r);
  }

  /** The nodes of `NewNodes` are the fresh, childless nodes `add_children` asks for. */
  lemma {:induction false} MadeFacts(texts1: seq<string>, levels1: seq<nat>, kids1: seq<seq<nat>>,
                                     texts: seq<string>, levels: seq<nat>, kids: seq<seq<nat>>, ls: seq<string>,
                                     ns: seq<nat>, root: nat)
    requires Made(texts, levels, kids, texts1, levels1, kids1, ls, ns)
    requires |texts1| == |levels1| == |kids1| == root + 1 && kids1[root] == []
    ensures forall k :: 0 <= k < |ns| ==> ns[k] < |texts| && ns[k] != root && kids[ns[k]] == []
    ensures forall x :: root <= x < |kids| ==> kids[x] == []
  {
    assert kids[root] == kids[..root + 1][root];
  }

  /** The levels `add_children` checks in `BuiltTree` are those of the lines. */
  lemma {:induction false} CheckedLevels(levels0: seq<nat>, rootLevel: nat, ls: seq<string>)
    ensures var levels := levels0 + [rootLevel] + NodeLevels(ls);
            LevelsAt(levels, Span(|levels0| + 1, |ls|)) == NodeLevels(ls) && levels[|levels0|] == rootLevel
  {
    var levels := levels0 + [rootLevel] + NodeLevels(ls);
    var ns := Span(|levels0| + 1, |ls|);
    forall k | 0 <= k < |ns| ensures levels[ns[k]] == NodeLevels(ls)[k] {
      assert ns[k] == |levels0| + 1 + k;
    }
  }

  /**
   * With a one-character separator that does not occur in "root", the root is "root" at level 0,
   * so no line can be below it and a level error is always about the first line.
   */
  lemma DefaultRoot(c: char, lv: seq<nat>, i: nat, t: string)
    requires c !in "root" && i < |lv|
    ensures NodeText("root", [c]) == "root" && NodeLevel("root", [c]) == 0
    ensures BelowError(NodeLevel("root", [c]), lv, i, t) == BelowFirst(t)
  {
    assert RStrip("root") == "root";
    NodeWithoutSeparator("root", c);
  }

  /** Indices made one after the other are distinct. */
  lemma {:induction false} SpanNoRepeats(lo: nat, n: nat)
    ensures NoRepeats(Span(lo, n))
    decreases n
  {
    if n > 0 {
      assert Span(lo, n)[1..] == Span(lo + 1, n - 1);
      SpanNoRepeats(lo + 1, n - 1);
    }
  }

  /** `add_children` on the root, as `BuiltTree` says. */
  lemma {:induction false} AddedToRoot(texts: seq<string>, levels: seq<nat>, kids0: seq<seq<nat>>,
                                       kids: seq<seq<nat>>, root: nat, ns: seq<nat>, e: Option<TreeError>,
                                       r: Result<nat, TreeError>)
    requires |texts| == |levels| == |kids0| == |kids| == root + 1 + |ns| && ns == Span(root + 1, |ns|)
    requires forall x :: root <= x < |kids0| ==> kids0[x] == []
    requires r == if e.Some? then Failure(e.value) else Success(root)
    requires ns == [] ==> e.None? && kids == kids0
    requires ns != [] && FirstBelow(levels[root], LevelsAt(levels, ns)) < |ns| ==>
               var b := FirstBelow(levels[root], LevelsAt(levels, ns));
               e == Some(BelowError(levels[root], LevelsAt(levels, ns), b, texts[ns[b]])) && kids == kids0
    requires ns != [] && FirstBelow(levels[root], LevelsAt(levels, ns)) == |ns| ==>
               var lv := LevelsAt(levels, ns);
               var j := FirstJump(lv);
               (e.None? <==> j == |ns|) && (j < |ns| ==> e == Some(TooDeep(texts[ns[j]])))
               && forall x :: 0 <= x < |kids| ==> kids[x] == kids0[x] + Attached(root, ns, lv, x, j)
    ensures kids[..root] == kids0[..root]
    ensures BuiltTree(texts, levels, kids, root, |ns|, r)
  {
    var lv := LevelsAt(levels, ns);
    if ns != [] && FirstBelow(levels[root], lv) == |ns| {
      var j := FirstJump(lv);
      assert forall x :: root <= x < |kids| ==> kids0[x] + Attached(root, ns, lv, x, j) == Attached(root, ns, lv, x, j);
      forall x | 0 <= x < root ensures kids[x] == kids0[x] {
        AttachedElsewhere(root, ns, lv, x, j);
      }
    }
  }

  /** Only the receiver and the nodes themselves take children. */
  lemma {:induction false} AttachedElsewhere(p: nat, ns: seq<nat>, lv: seq<nat>, x: nat, i: nat)
    requires |lv| == |ns| && i <= |ns| && x != p && x !in ns
    ensures Attached(p, ns, lv, x, i) == []
  {
    if i > 0 {
      AttachedElsewhere(p, ns, lv, x, i - 1);
    }
  }

  /**
   * The outcome of `add_children` on the root and the `n` nodes after it: no nodes leave the root
   * without children; a node below the root or below the first node raises and attaches nothing;
   * otherwise the nodes are attached up to the first one more than one level deeper than the one
   * before it, which raises.
   */
  ghost predicate BuiltTree(texts: seq<string>, levels: seq<nat>, kids: seq<seq<nat>>, root: nat, n: nat,
                            r: Result<nat, TreeError>)
    requires |texts| == |levels| == |kids| == root + 1 + n
  {
    var ns := Span(root + 1, n);
    var lv := LevelsAt(levels, ns);
    if n == 0 then r.Success? && kids[root] == []
    else
      var b := FirstBelow(levels[root], lv);
      if b < n then
        r == Failure(BelowError(levels[root], lv, b, texts[ns[b]]))
        && forall x :: root <= x < |kids| ==> kids[x] == []
      else
        var j := FirstJump(lv);
        (r.Success? <==> j == n) && (j < n ==> r == Failure(TooDeep(texts[ns[j]])))
        && forall x :: root <= x < |kids| ==> kids[x] == Attached(root, ns, lv, x, j)
  }

  /** `[Node(line) for line in ls]`: fresh nodes without children, in line order. */
  method NewNodes(f: Forest, ls: seq<string>) returns (ns: seq<nat>)
    requires f.Valid()
    modifies f
    ensures f.Valid() && Made(f.texts, f.levels, f.kids, old(f.texts), old(f.levels), old(f.kids), ls, ns)
  {
    ns := [];
    var i := 0;
    while i < |ls|
      invariant f.Valid() && i <= |ls| && Made(f.texts, f.levels, f.kids, old(f.texts), old(f.levels), old(f.kids), ls[..i], ns)
    {
      ghost var texts, levels, kids := f.texts, f.levels, f.kids;
      var n := f.NewNode(ls[i], " ");
      MadeStep(texts, levels, kids, old(f.texts), old(f.levels), old(f.kids), ls, i, ns);
      ns := ns + [n];
      i := i + 1;
    }
    assert ls[..i] == ls;
  }

  /** The forest after `NewNodes`: one childless node per line after the old ones. */
  ghost predicate Made(texts: seq<string>, levels: seq<nat>, kids: seq<seq<nat>>,
                       texts0: seq<string>, levels0: seq<nat>, kids0: seq<seq<nat>>, ls: seq<string>, ns: seq<nat>)
  {
    ns == Span(|texts0|, |ls|) && texts == texts0 + NodeTexts(ls) && levels == levels0 + NodeLevels(ls)
    && |kids| == |kids0| + |ls| && kids[..|kids0|] == kids0
    && forall x :: |kids0| <= x < |kids| ==> kids[x] == []
  }

  lemma {:induction false} MadeStep(texts: seq<string>, levels: seq<nat>, kids: seq<seq<nat>>,
                 texts0: seq<string>, levels0: seq<nat>, kids0: seq<seq<nat>>, ls: seq<string>, i: nat, ns: seq<nat>)
    requires i < |ls| && Made(texts, levels, kids, texts0, levels0, kids0, ls[..i], ns)
    ensures Made(texts + [NodeText(ls[i], " ")], levels + [NodeLevel(ls[i], " ")], kids + [[]],
                 texts0, levels0, kids0, ls[..i + 1], ns + [|texts|])
  {
    assert ls[..i + 1][..i] == ls[..i];
    assert (kids + [[]])[..|kids0|] == kids[..|kids0|];
  }

  // ---------------------------------------------------------------------------------------------
  // build_from_narrower

  /** The keys of `d` that are not in `all`, in key order. */
  function RootKeys(d: Dict<string, seq<string>>, all: seq<string>): (r: seq<string>)
    ensures forall k :: k in r <==> k in Keys(d) && k !in all
    decreases |d|
  {
    if d == [] then []
    else
      KeysSnoc(d);
      var last := d[|d| - 1].0;
      RootKeys(d[..|d| - 1], all) + (if last !in all then [last] else [])
  }

  /** The `for k in narrower.keys()` loop: the keys that no entry lists as a child. */
  method FindRoots(nar: Dict<string, seq<string>>) returns (roots: seq<string>)
    ensures roots == RootKeys(nar, AllChildren(nar))
  {
    var all := AllChildren(nar);
    roots := [];
    var i := 0;
    while i < |nar|
      invariant i <= |nar| && roots == RootKeys(nar[..i], all)
    {
      assert nar[..i + 1][..i] == nar[..i];
      if nar[i].0 !in all {
        roots := roots + [nar[i].0];
      }
      i := i + 1;
    }
    assert nar[..i] == nar;
  }

  /** The node line of the root and the dictionary `add_nodes_narrower` gets, for the roots found. */
  function RootLine(roots: seq<string>): string {
    if |roots| == 1 then roots[0] else "root"
  }

  function RestOf(nar: Dict<string, seq<string>>, roots: seq<string>): (r: Dict<string, seq<string>>)
    requires DistinctKeys(nar) && (|roots| == 1 ==> roots[0] in Keys(nar))
    ensures DistinctKeys(r)
  {
    if |roots| == 1 then Remove(nar, roots[0]) else nar
  }

  /**
   * `build_from_narrower(narrower)`: without a root key it raises "No root found on root level.".
   * A single root key becomes the root node and leaves the dictionary; several get a new "root"
   * node over the whole dictionary. Then `add_nodes_narrower` grows the tree under the root.
   */
  method BuildFromNarrower(f: Forest, nar: Dict<string, seq<string>>)
    returns (r: Result<nat, TreeError>, nodes: Dict<string, nat>)
    requires f.Valid() && DistinctKeys(nar)
    modifies f
    ensures f.Valid()
    ensures RootKeys(nar, AllChildren(nar)) == [] ==>
              r == Failure(NoRoot) && f.texts == old(f.texts) && f.levels == old(f.levels) && f.kids == old(f.kids)
    ensures RootKeys(nar, AllChildren(nar)) != [] ==>
              NarrowerBuilt(f.texts, f.levels, f.kids, old(f.texts), old(f.levels), old(f.kids), nar,
                            RootKeys(nar, AllChildren(nar)), r, nodes)
    ensures RootKeys(nar, AllChildren(nar)) != [] && AllDefined(nar) && WellFounded(nar) ==> r.Success?
  {
    var roots := FindRoots(nar);
    if |roots| == 0 {
      return Failure(NoRoot), [];
    }
    var rest := RestOf(nar, roots);
    ghost var texts0, levels0, kids0 := f.texts, f.levels, f.kids;
    var root := f.NewNode(RootLine(roots), " ");
    ghost var texts1, levels1, kids1 := f.texts, f.levels, f.kids;
    var e;
    e, nodes := f.AddNodesNarrower(root, rest);
    r := if e.Some? then Failure(e.value) else Success(root);
    GrownFromRoot(f.texts, f.levels, f.kids, texts0, levels0, kids0, nar, roots, e, r, nodes);
    RestKeepsShape(nar, roots);
  }

  /** The dictionary left under the root keeps every child defined and stays free of cycles. */
  lemma RestKeepsShape(nar: Dict<string, seq<string>>, roots: seq<string>)
    requires DistinctKeys(nar) && roots != [] && roots == RootKeys(nar, AllChildren(nar))
    ensures AllDefined(nar) ==> AllDefined(RestOf(nar, roots))
    ensures WellFounded(nar) ==> WellFounded(RestOf(nar, roots))
  {
    var rest := RestOf(nar, roots);
    if |roots| == 1 {
      assert roots[0] in roots;
      if AllDefined(nar) {
        RemoveRootKeepsDefined(nar, roots[0]);
      }
    }
    if WellFounded(nar) {
      WellFoundedSubDict(nar, rest);
    }
  }

  /**
   * The outcome under the root: a child that is not a key of the remaining dictionary raises and
   * adds nothing under the root; otherwise every remaining key becomes a node (`GrownOn`), unless
   * the source would loop for ever or recurse without end.
   */
  ghost predicate NarrowerBuilt(texts: seq<string>, levels: seq<nat>, kids: seq<seq<nat>>,
                                texts0: seq<string>, levels0: seq<nat>, kids0: seq<seq<nat>>,
                                nar: Dict<string, seq<string>>, roots: seq<string>, r: Result<nat, TreeError>,
                                nodes: Dict<string, nat>)
    requires DistinctKeys(nar) && (|roots| == 1 ==> roots[0] in Keys(nar))
  {
    var rest := RestOf(nar, roots);
    var root := |texts0|;
    var texts1, levels1 := texts0 + [NodeText(RootLine(roots), " ")], levels0 + [NodeLevel(RootLine(roots), " ")];
    (r.Success? ==> r.value == root)
    && (r.Failure? && r.error.ChildUndefined? <==> !AllDefined(rest))
    && (!AllDefined(rest) ==>
          texts == texts1 && levels == levels1 && kids == kids0 + [[]]
          && r.Failure? && r.error.text in AllChildren(rest) && r.error.text !in Keys(rest))
    && (r.Failure? ==> r.error.ChildUndefined? || r.error == Stuck || r.error == DepthExceeded)
    && (r == Failure(Stuck) || r == Failure(DepthExceeded) ==> exists ks :: SelfFed(rest, ks))
    && (r.Success? ==> GrownOn(texts, levels, kids, root, rest, nodes, root + 1, texts1, levels1, kids0 + [[]])
                       && forall k :: k in Keys(rest) ==> k in Keys(nodes))
  }

  /** `add_nodes_narrower` on the new root, as `NarrowerBuilt` says. */
  lemma GrownFromRoot(texts: seq<string>, levels: seq<nat>, kids: seq<seq<nat>>,
                      texts0: seq<string>, levels0: seq<nat>, kids0: seq<seq<nat>>,
                      nar: Dict<string, seq<string>>, roots: seq<string>, e: Option<TreeError>,
                      r: Result<nat, TreeError>, nodes: Dict<string, nat>)
    requires DistinctKeys(nar) && roots != [] && roots == RootKeys(nar, AllChildren(nar))
    requires r == if e.Some? then Failure(e.value) else Success(|texts0|)
    requires var rest, texts1 := RestOf(nar, roots), texts0 + [NodeText(RootLine(roots), " ")];
             var levels1, kids1 := levels0 + [NodeLevel(RootLine(roots), " ")], kids0 + [[]];
             (e.Some? && e.value.ChildUndefined? <==> !AllDefined(rest))
             && (!AllDefined(rest) ==> texts == texts1 && levels == levels1 && kids == kids1)
             && (!AllDefined(rest) ==>
                   exists i :: 0 <= i < |AllChildren(rest)| && AllChildren(rest)[i] == e.value.text
                               && e.value.text !in Keys(rest) && forall j :: 0 <= j < i ==> AllChildren(rest)[j] in Keys(rest))
             && (e.Some? ==> e.value.ChildUndefined? || e.value == Stuck || e.value == DepthExceeded)
             && (e == Some(Stuck) || e == Some(DepthExceeded) ==> exists ks :: SelfFed(rest, ks))
             && (e.None? ==> GrownOn(texts, levels, kids, |texts0|, rest, nodes, |texts0| + 1, texts1, levels1, kids1)
                             && forall k :: k in Keys(rest) ==> k in Keys(nodes))
    ensures NarrowerBuilt(texts, levels, kids, texts0, levels0, kids0, nar, roots, r, nodes)
  {
  }

  /**
   * Taking out a root key keeps every child defined: the children that remain were children
   * before, and none of them is the root.
   */
  lemma RemoveRootKeepsDefined(nar: Dict<string, seq<string>>, k: string)
    requires DistinctKeys(nar) && k in Keys(nar) && k !in AllChildren(nar) && AllDefined(nar)
    ensures AllDefined(Remove(nar, k))
  {
    var rest := Remove(nar, k);
    forall c | c in AllChildren(rest) ensures c in AllChildren(nar) {
      ChildOfRest(nar, k, c);
    }
    forall c | c in AllChildren(rest) ensures c in Keys(rest) {
      var m := IndexOf(Keys(nar), c);
      RemoveKeeps(nar, k);
      assert nar[m] in rest;
    }
  }

  /** A child in the dictionary after `del d[k]` was a child before. */
  lemma ChildOfRest(nar: Dict<string, seq<string>>, k: string, c: string)
    requires DistinctKeys(nar) && k in Keys(nar) && c in AllChildren(Remove(nar, k))
    ensures c in AllChildren(nar)
  {
    var rest := Remove(nar, k);
    AllChildrenHas(rest);
    var i :| 0 <= i < |rest| && c in rest[i].1;
    var j :| 0 <= j < |nar| && nar[j] == rest[i];
    AllChildrenHas(nar);
  }

  /**
   * The converse does not hold: the children of a single root key are never checked, because its
   * entry leaves the dictionary before `add_nodes_narrower` looks. `{"a": ["b"]}` names the
   * undefined child "b", yet the tree is the lone root "a" and nothing raises.
   */
  lemma RootChildrenUnchecked()
    ensures var nar := [("a", ["b"])];
            RootKeys(nar, AllChildren(nar)) == ["a"] && !AllDefined(nar) && AllDefined(RestOf(nar, ["a"]))
            && RestOf(nar, ["a"]) == []
  {
    var nar := [("a", ["b"])];
    assert AllChildren(nar) == ["b"] by {
      assert nar[..0] == [];
    }
    assert Keys(nar) == ["a"];
    assert RootKeys(nar, ["b"]) == ["a"] by {
      assert nar[..0] == [];
    }
    assert "b" !in Keys(nar);
    assert Remove(nar, "a") == [];
  }
}
