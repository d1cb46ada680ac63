/**
 * The hierarchy tree of `util.py`. `Node` objects live in a `Forest`: a node is an index, and the
 * forest holds each node's `text`, `level` and `children` list. Two parents can share a child, as
 * `add_nodes_narrower` makes them. A ghost rank that grows along every edge shows that the structure
 * is acyclic, so the recursive exports terminate.
 */
module Tree {
  import opened Wrappers
  import opened Strings
  import opened Dicts
  import opened Narrower

  /** The `ValueError`s of the module, one constructor per message. */
  datatype TreeError =
    | BelowReceiver(text: string)   // 'Level of node "..." lower than of root node.'
    | BelowFirst(text: string)      // 'Level of node "..." lower than of first node to add.'
    | TooDeep(text: string)         // 'Indentation inreases by more than one level for "..."'
    | ChildUndefined(text: string)  // 'Child "..." is not defined.'
    | NoRoot                        // "No root found on root level."
    | Stuck                         // a pass of `while stack` finds nothing ready: the loop never ends
    | DepthExceeded                 // `get_level` recurses without end: Python's `RecursionError`
    | EmptySeparator                // `str.split("")`: "empty separator"

  // ---------------------------------------------------------------------------------------------
  // Node(indented_line, sep)

  /** The pieces of `indented_line.rstrip().split(sep)`. */
  function LinePieces(line: string, sep: string): (r: seq<string>)
    requires sep != ""
    ensures |r| >= 1 && Join(r, sep) == RStrip(line)
  {
    JoinSplit(RStrip(line), sep);
    SplitOn(RStrip(line), sep)
  }

  /** `level`: one less than the number of pieces. */
  function NodeLevel(line: string, sep: string): nat
    requires sep != ""
  {
    |LinePieces(line, sep)| - 1
  }

  /** `text`: the last piece. */
  function NodeText(line: string, sep: string): string
    requires sep != ""
  {
    LinePieces(line, sep)[NodeLevel(line, sep)]
  }

  /**
   * With a one-character separator, the level counts its occurrences in the right-stripped line,
   * and the text is the part after the last one.
   */
  lemma NodeFields(line: string, c: char)
    ensures NodeLevel(line, [c]) == CountChar(RStrip(line), c)
    ensures c !in NodeText(line, [c])
    ensures EndsWith(RStrip(line), NodeText(line, [c]))
  {
    var ps := LinePieces(line, [c]);
    SplitCharCount(RStrip(line), c);
    if |ps| >= 2 {
      JoinLastPiece(ps, [c]);
    }
  }

  /** A line without the separator is one node at level 0 whose text is the right-stripped line. */
  lemma NodeWithoutSeparator(line: string, c: char)
    requires c !in line
    ensures NodeLevel(line, [c]) == 0 && NodeText(line, [c]) == RStrip(line)
  {
    assert forall k :: 0 <= k < |RStrip(line)| ==> RStrip(line)[k] == line[k];
    SplitNoSep(RStrip(line), c);
  }

  // ---------------------------------------------------------------------------------------------
  // The attach rule of __add_children, as it is evidently intended: one list shared by the recursion

  /** The last position before `i` whose level is `v`, or -1. */
  function LastAt(lv: seq<nat>, v: nat, i: nat): (r: int)
    requires i <= |lv|
    ensures -1 <= r < i
    ensures r >= 0 ==> lv[r] == v && forall k :: r < k < i ==> lv[k] != v
    ensures r < 0 ==> forall k :: 0 <= k < i ==> lv[k] != v
  {
    if i == 0 then -1 else if lv[i - 1] == v then i - 1 else LastAt(lv, v, i - 1)
  }

  /** No node before position `i` is more than one level deeper than the node before it. */
  predicate Steps(lv: seq<nat>, i: nat)
    requires i <= |lv|
  {
    forall k :: 0 < k < i ==> StepAt(lv, k)
  }

  /** Position `k` is at most one level deeper than the one before it. */
  predicate StepAt(lv: seq<nat>, k: nat)
    requires 0 < k < |lv|
  {
    lv[k] <= lv[k - 1] + 1
  }

  /** The first position that is more than one level deeper than the one before, or |lv|. */
  function FirstJump(lv: seq<nat>): (r: nat)
    ensures r <= |lv| && Steps(lv, r)
    ensures r < |lv| ==> 0 < r && lv[r] > lv[r - 1] + 1
  {
    JumpFrom(lv, 1)
  }

  function JumpFrom(lv: seq<nat>, i: nat): (r: nat)
    requires 1 <= i && (|lv| == 0 || i <= |lv|) && (|lv| > 0 ==> Steps(lv, i))
    ensures r <= |lv| && Steps(lv, r) && (|lv| > 0 ==> i <= r)
    ensures r < |lv| ==> 0 < r && lv[r] > lv[r - 1] + 1
    decreases |lv| - i
  {
    if i >= |lv| then |lv|
    else if lv[i] > lv[i - 1] + 1 then i
    else JumpFrom(lv, i + 1)
  }

  /** The validation loop of `add_children`: the first node below the receiver or below the first node. */
  function FirstBelow(selfLevel: nat, lv: seq<nat>): (r: nat)
    requires lv != []
    ensures r <= |lv|
    ensures forall k :: 0 <= k < r ==> selfLevel <= lv[k] && lv[0] <= lv[k]
    ensures r < |lv| ==> lv[r] < selfLevel || lv[r] < lv[0]
  {
    BelowFrom(selfLevel, lv, 0)
  }

  function BelowFrom(selfLevel: nat, lv: seq<nat>, i: nat): (r: nat)
    requires lv != [] && i <= |lv|
    requires forall k :: 0 <= k < i ==> selfLevel <= lv[k] && lv[0] <= lv[k]
    ensures i <= r <= |lv|
    ensures forall k :: 0 <= k < r ==> selfLevel <= lv[k] && lv[0] <= lv[k]
    ensures r < |lv| ==> lv[r] < selfLevel || lv[r] < lv[0]
    decreases |lv| - i
  {
    if i == |lv| then i
    else if lv[i] < selfLevel || lv[i] < lv[0] then i
    else BelowFrom(selfLevel, lv, i + 1)
  }

  /** The error `add_children` raises for the node at a position the validation loop stops at. */
  function BelowError(selfLevel: nat, lv: seq<nat>, i: nat, text: string): TreeError
    requires i < |lv|
  {
    if selfLevel > lv[i] then BelowReceiver(text) else BelowFirst(text)
  }

  /** The position of the node that position `i` goes under, or -1 for the receiver itself. */
  function ParentAt(lv: seq<nat>, i: nat): (r: int)
    requires i < |lv|
    ensures -1 <= r < i
  {
    if lv[i] <= lv[0] then -1 else LastAt(lv, lv[i] - 1, i)
  }

  /** The node that gets position `i` as a child. */
  function Owner(p: nat, ns: seq<nat>, lv: seq<nat>, i: nat): nat
    requires |lv| == |ns| && i < |ns|
  {
    var j := ParentAt(lv, i);
    if j < 0 then p else ns[j]
  }

  /** The nodes among the first `i` that become children of `x`, in input order. */
  function Attached(p: nat, ns: seq<nat>, lv: seq<nat>, x: nat, i: nat): (r: seq<nat>)
    requires |lv| == |ns| && i <= |ns|
    ensures |r| <= i
  {
    if i == 0 then []
    else Attached(p, ns, lv, x, i - 1) + (if Owner(p, ns, lv, i - 1) == x then [ns[i - 1]] else [])
  }

  /** Every level from the first node's up to that of position `i` occurs at or before `i`. */
  lemma {:induction false} LevelsReached(lv: seq<nat>, i: nat, v: nat)
    requires i < |lv| && Steps(lv, i + 1)
    requires lv[0] <= v <= lv[i]
    ensures LastAt(lv, v, i + 1) >= 0
  {
    if lv[i] != v {
      assert StepAt(lv, i);
      LevelsReached(lv, i - 1, v);
      var j := LastAt(lv, v, i);
      assert LastAt(lv, v, i + 1) == j;
    }
  }

  /**
   * A node deeper than the first goes under the last node before it that is one level higher; so
   * with no jump and no node above the first, every node but those at the first level has a parent.
   */
  lemma ParentIsLastShallower(lv: seq<nat>, i: nat)
    requires i < |lv| && Steps(lv, i + 1) && lv[0] < lv[i]
    ensures 0 <= ParentAt(lv, i) && lv[ParentAt(lv, i)] == lv[i] - 1
    ensures forall k :: ParentAt(lv, i) < k < i ==> lv[k] != lv[i] - 1
  {
    assert StepAt(lv, i);
    LevelsReached(lv, i - 1, lv[i] - 1);
  }

  /** A node one level deeper than the node before it goes under that node. */
  lemma DeeperGoesUnderPrevious(p: nat, ns: seq<nat>, lv: seq<nat>, i: nat)
    requires |lv| == |ns| && 0 < i < |ns| && lv[0] <= lv[i - 1] && lv[i] == lv[i - 1] + 1
    ensures Owner(p, ns, lv, i) == ns[i - 1]
  {
    assert LastAt(lv, lv[i] - 1, i) == i - 1;
  }

  /** The receiver gets exactly the nodes at the first node's level, in input order. */
  lemma {:induction false} DirectChildren(p: nat, ns: seq<nat>, lv: seq<nat>, i: nat)
    requires |lv| == |ns| && i <= |ns| && p !in ns && Steps(lv, i)
    requires forall a, b :: 0 <= a < b < |ns| ==> ns[a] != ns[b]
    requires forall k :: 0 <= k < |ns| ==> lv[0] <= lv[k]
    ensures forall k :: 0 <= k < i ==> (ns[k] in Attached(p, ns, lv, p, i) <==> lv[k] == lv[0])
    ensures forall x :: x in Attached(p, ns, lv, p, i) ==> exists k :: 0 <= k < i && ns[k] == x
  {
    if i > 0 {
      DirectChildren(p, ns, lv, i - 1);
      var prev := Attached(p, ns, lv, p, i - 1);
      assert ns[i - 1] !in prev;
      if lv[i - 1] != lv[0] {
        ParentIsLastShallower(lv, i - 1);
        assert ns[ParentAt(lv, i - 1)] != p;
      }
    }
  }

  /** A node of the list has no children from the attach loop before its own turn. */
  lemma {:induction false} NothingAttachedYet(p: nat, ns: seq<nat>, lv: seq<nat>, i: nat, j: nat)
    requires |lv| == |ns| && j <= i < |ns| && p !in ns
    requires forall a, b :: 0 <= a < b < |ns| ==> ns[a] != ns[b]
    ensures Attached(p, ns, lv, ns[i], j) == []
  {
    if j > 0 {
      NothingAttachedYet(p, ns, lv, i, j - 1);
      var q := ParentAt(lv, j - 1);
      assert q >= 0 ==> ns[q] != ns[i];
    }
  }

  // ---------------------------------------------------------------------------------------------
  // __add_children as written: every call copies the list, the recursive one too

  /** Children lists of the positions of the list (-1 is the receiver), as the outer loop sees them. */
  function KidsOf(kids: map<int, seq<nat>>, x: int): seq<nat> {
    if x in kids then kids[x] else []
  }

  /**
   * One call of `__add_children` on the positions `nodes` of a list with levels `lv`, for the
   * receiver `self` at `selfLevel`: `(Some(raised), kids)` when it returns or raises, `(None, _)`
   * when `fuel` loop steps and calls do not suffice for it to return.
   */
  function AttachAsWritten(lv: seq<nat>, self: int, selfLevel: nat, nodes: seq<nat>, childLevel: nat,
                           kids: map<int, seq<nat>>, fuel: nat): (r: (Option<bool>, map<int, seq<nat>>))
    requires forall k :: 0 <= k < |nodes| ==> nodes[k] < |lv|
    requires forall x, k :: x in kids && 0 <= k < |kids[x]| ==> kids[x][k] < |lv|
    ensures forall x, k :: x in r.1 && 0 <= k < |r.1[x]| ==> r.1[x][k] < |lv|
    decreases fuel
  {
    if fuel == 0 then (None, kids)
    else if nodes == [] then (Some(false), kids)
    else
      var node := nodes[0];
      var l := lv[node];
      if l == childLevel then
        AttachAsWritten(lv, self, selfLevel, nodes[1..], childLevel, kids[self := KidsOf(kids, self) + [node]], fuel - 1)
      else if l == childLevel + 1 then
        var mine := KidsOf(kids, self);
        if mine != [] then
          var last := mine[|mine| - 1];
          var inner := AttachAsWritten(lv, last, lv[last], nodes, l, kids, fuel - 1);
          if inner.0 != Some(false) then inner
          else AttachAsWritten(lv, self, selfLevel, nodes, childLevel, inner.1, fuel - 1)
        else AttachAsWritten(lv, self, selfLevel, nodes, childLevel, kids, fuel - 1)
      else if l > childLevel + 1 then (Some(true), kids)
      else if l <= selfLevel then (Some(false), kids)
      else AttachAsWritten(lv, self, selfLevel, nodes[1..], childLevel, kids, fuel - 1)
  }

  /** `build_tree("a\n b")` as written: once "b" is attached under "a" the outer loop meets it again. */
  lemma AttachAsWrittenNeverReturns(fuel: nat)
    ensures AttachAsWritten([0, 1], -1, 0, [0, 1], 0, map[], fuel).0 == None
  {
    if fuel > 0 {
      var kids: map<int, seq<nat>> := map[-1 := [0]];
      var none: map<int, seq<nat>> := map[];
      assert [0, 1][1..] == [1];
      assert KidsOf(none, -1) + [0] == [0];
      assert none[-1 := [0]] == kids;
      assert AttachAsWritten([0, 1], -1, 0, [0, 1], 0, map[], fuel)
             == AttachAsWritten([0, 1], -1, 0, [1], 0, kids, fuel - 1);
      AttachAgain(fuel - 1, kids);
    }
  }

  /** The state the outer loop of the example keeps returning to. */
  lemma {:induction false} AttachAgain(fuel: nat, kids: map<int, seq<nat>>)
    requires KidsOf(kids, -1) == [0]
    requires forall x, k :: x in kids && 0 <= k < |kids[x]| ==> kids[x][k] < 2
    ensures AttachAsWritten([0, 1], -1, 0, [1], 0, kids, fuel).0 == None
    decreases fuel
  {
    if fuel > 0 {
      var inner := AttachAsWritten([0, 1], 0, 0, [1], 1, kids, fuel - 1);
      if fuel >= 3 {
        assert [1][1..] == [];
        var kids' := kids[0 := KidsOf(kids, 0) + [1]];
        assert inner == AttachAsWritten([0, 1], 0, 0, [], 1, kids', fuel - 2) == (Some(false), kids');
        AttachAgain(fuel - 1, kids');
      } else if fuel == 2 {
        assert [1][1..] == [];
        assert inner.0 == None;
      }
    }
  }

  // ---------------------------------------------------------------------------------------------
  // get_level

  /** The first entry of the dict whose children hold `key`, or -1. */
  function FirstParent(d: Dict<string, seq<string>>, key: string): (r: int)
    ensures -1 <= r < |d|
    ensures r >= 0 ==> key in d[r].1 && forall j :: 0 <= j < r ==> key !in d[j].1
    ensures r < 0 ==> forall j :: 0 <= j < |d| ==> key !in d[j].1
  {
    ParentFrom(d, key, 0)
  }

  function ParentFrom(d: Dict<string, seq<string>>, key: string, i: nat): (r: int)
    requires i <= |d| && forall j :: 0 <= j < i ==> key !in d[j].1
    ensures -1 <= r < |d|
    ensures r >= 0 ==> key in d[r].1 && forall j :: 0 <= j < r ==> key !in d[j].1
    ensures r < 0 ==> forall j :: 0 <= j < |d| ==> key !in d[j].1
    decreases |d| - i
  {
    if i == |d| then -1 else if key in d[i].1 then i else ParentFrom(d, key, i + 1)
  }

  /**
   * `get_level(narrower, key, level)`: one level more for every step to the first dict entry that
   * lists the current key as a child. `None` when `fuel` steps do not reach a key without parent,
   * which on a cyclic dict is never.
   */
  function GetLevel(d: Dict<string, seq<string>>, key: string, level: nat, fuel: nat): (r: Option<nat>)
    ensures r.Some? ==> r.value >= level
    decreases fuel
  {
    if fuel == 0 then None
    else
      var j := FirstParent(d, key);
      if j < 0 then Some(level) else GetLevel(d, d[j].0, level + 1, fuel - 1)
  }

  /** A key that is nobody's child stays at the start level, which is what roots are given anyway. */
  lemma RootKeepsLevel(d: Dict<string, seq<string>>, key: string, level: nat, fuel: nat)
    requires fuel > 0 && key !in AllChildren(d)
    ensures GetLevel(d, key, level, fuel) == Some(level)
  {
    AllChildrenHas(d);
  }

  /** The level is the start level plus the depth of the key: the start only shifts it. */
  lemma {:induction false} GetLevelShift(d: Dict<string, seq<string>>, key: string, level: nat, fuel: nat)
    ensures GetLevel(d, key, level, fuel).Some? <==> GetLevel(d, key, 0, fuel).Some?
    ensures GetLevel(d, key, level, fuel).Some? ==>
              GetLevel(d, key, level, fuel).value == level + GetLevel(d, key, 0, fuel).value
    decreases fuel
  {
    if fuel > 0 {
      var j := FirstParent(d, key);
      if j >= 0 {
        GetLevelShift(d, d[j].0, level + 1, fuel - 1);
        GetLevelShift(d, d[j].0, 1, fuel - 1);
      }
    }
  }

  /** More fuel does not change a level once it is found. */
  lemma {:induction false} GetLevelFuel(d: Dict<string, seq<string>>, key: string, level: nat, fuel: nat, more: nat)
    requires GetLevel(d, key, level, fuel).Some? && fuel <= more
    ensures GetLevel(d, key, level, more) == GetLevel(d, key, level, fuel)
    decreases fuel
  {
    var j := FirstParent(d, key);
    if j >= 0 {
      GetLevelFuel(d, d[j].0, level + 1, fuel - 1, more - 1);
    }
  }

  /** `ch[m + 1]` is a key that lists `ch[m]` as a child. */
  predicate ParentLink(d: Dict<string, seq<string>>, ch: seq<string>, m: nat)
    requires m + 1 < |ch|
  {
    ch[m + 1] in Keys(d) && ch[m] in ChildrenIn(d, ch[m + 1])
  }

  /** The chain of first parents `get_level` climbs when each of its `fuel` steps finds a parent. */
  lemma {:induction false} NoLevelChain(d: Dict<string, seq<string>>, key: string, level: nat, fuel: nat)
    returns (ch: seq<string>)
    requires DistinctKeys(d) && GetLevel(d, key, level, fuel) == None
    ensures |ch| == fuel + 1 && ch[0] == key
    ensures forall m :: 0 <= m < fuel ==> ParentLink(d, ch, m)
    decreases fuel
  {
    if fuel == 0 {
      ch := [key];
    } else {
      var j := FirstParent(d, key);
      GetAt(d, j);
      assert Keys(d)[j] == d[j].0;
      var up := NoLevelChain(d, d[j].0, level + 1, fuel - 1);
      ch := [key] + up;
      forall m | 0 <= m < fuel ensures ParentLink(d, ch, m) {
        if m > 0 {
          assert ch[m] == up[m - 1] && ch[m + 1] == up[m] && ParentLink(d, up, m - 1);
        }
      }
    }
  }

  /**
   * `get_level` runs out of its `|d| + 1` steps only on a cycle: the chain of first parents then
   * holds more keys than the dict has, so one repeats, and the keys between give a self-fed list.
   */
  lemma NoLevelSelfFed(d: Dict<string, seq<string>>, key: string, level: nat) returns (ks: seq<string>)
    requires DistinctKeys(d) && GetLevel(d, key, level, |d| + 1) == None
    ensures SelfFed(d, ks)
  {
    var f := |d| + 1;
    var ch := NoLevelChain(d, key, level, f);
    var ups := ch[1..];
    if forall a, b :: 0 <= a < b < |ups| ==> ups[a] != ups[b] {
      forall x | x in ups ensures x in Keys(d) {
        var a :| 0 <= a < |ups| && ups[a] == x;
        assert ch[a + 1] == x && ParentLink(d, ch, a);
      }
      FewerKeys(ups, Keys(d));
      assert false;
    }
    var a, b :| 0 <= a < b < |ups| && ups[a] == ups[b];
    ks := ch[a + 2..b + 2];
    assert ks[0] == ch[a + 2];
    forall k | k in ks ensures exists c :: c in ks && c in ChildrenIn(d, k) {
      var i :| 0 <= i < |ks| && ks[i] == k;
      assert ks[i] == ch[a + 1 + i + 1] && ParentLink(d, ch, a + 1 + i);
      assert ch[a + 1 + i] in ChildrenIn(d, k);
      if i == 0 {
        assert ch[a + 1] == ch[b + 1] == ks[b - a - 1];
      } else {
        assert ch[a + 1 + i] == ks[i - 1];
      }
    }
  }

  // ---------------------------------------------------------------------------------------------
  // The nodes

  /** The levels of a list of nodes. */
  function LevelsAt(levels: seq<nat>, ns: seq<nat>): (r: seq<nat>)
    requires forall k :: 0 <= k < |ns| ==> ns[k] < |levels|
    ensures |r| == |ns| && forall k :: 0 <= k < |ns| ==> r[k] == levels[ns[k]]
  {
    seq(|ns|, k requires 0 <= k < |ns| => levels[ns[k]])
  }

  /**
   * The fields of a forest agree in length, every child index names a node, and the rank grows
   * along every edge and stays below `bound`: so following children always ends.
   */
  ghost predicate ValidOn(texts: seq<string>, levels: seq<nat>, kids: seq<seq<nat>>, rank: seq<nat>, bound: nat) {
    |texts| == |levels| == |kids| == |rank|
    && (forall n :: 0 <= n < |kids| ==> KidsRanked(kids, rank, n))
    && (forall n :: 0 <= n < |rank| ==> rank[n] < bound)
  }

  /** Every child of node `n` is a node, with a rank above that of `n`. */
  ghost predicate KidsRanked(kids: seq<seq<nat>>, rank: seq<nat>, n: nat)
    requires n < |kids| == |rank|
  {
    forall k :: 0 <= k < |kids[n]| ==> kids[n][k] < |kids| && rank[n] < rank[kids[n][k]]
  }

  /** No node occurs twice in the list. */
  predicate NoRepeats<T(==)>(s: seq<T>) {
    s == [] || (s[0] !in s[1..] && NoRepeats(s[1..]))
  }

  lemma {:induction false} DistinctPairs<T>(s: seq<T>)
    requires NoRepeats(s)
    ensures forall a, b :: 0 <= a < b < |s| ==> s[a] != s[b]
  {
    if s != [] {
      DistinctPairs(s[1..]);
      forall a, b | 0 <= a < b < |s| ensures s[a] != s[b] {
        assert s[b] == s[1..][b - 1];
        if a > 0 {
          assert s[a] == s[1..][a - 1];
        }
      }
    }
  }

  /**
   * The ranks after `parent.children.append(n)` for a node `n` without children: `n` moves above
   * `parent` if it was not already.
   */
  ghost function Raised(rank: seq<nat>, parent: nat, n: nat): seq<nat>
    requires parent < |rank| && n < |rank|
  {
    rank[n := if rank[n] > rank[parent] then rank[n] else rank[parent] + 1]
  }

  /** Appending a childless node to another node's children keeps the forest valid. */
  lemma AttachKeepsValid(texts: seq<string>, levels: seq<nat>, kids: seq<seq<nat>>, rank: seq<nat>, bound: nat,
                         parent: nat, n: nat)
    requires ValidOn(texts, levels, kids, rank, bound)
    requires parent < |kids| && n < |kids| && parent != n && kids[n] == []
    ensures var rank2 := Raised(rank, parent, n);
            ValidOn(texts, levels, kids[parent := kids[parent] + [n]], rank2,
                    if rank2[n] < bound then bound else rank2[n] + 1)
  {
    var rank2 := Raised(rank, parent, n);
    var bound2 := if rank2[n] < bound then bound else rank2[n] + 1;
    forall m | 0 <= m < |kids| ensures KidsRanked(kids, rank2, m) {
      assert KidsRanked(kids, rank, m);
    }
    AppendKeepsValid(texts, levels, kids, rank2, bound2, parent, n);
  }

  /** Appending a node ranked above `parent` to its children keeps the forest valid. */
  lemma AppendKeepsValid(texts: seq<string>, levels: seq<nat>, kids: seq<seq<nat>>, rank: seq<nat>, bound: nat,
                         parent: nat, n: nat)
    requires ValidOn(texts, levels, kids, rank, bound)
    requires parent < |kids| && n < |kids| && rank[parent] < rank[n]
    ensures ValidOn(texts, levels, kids[parent := kids[parent] + [n]], rank, bound)
  {
    var kids2 := kids[parent := kids[parent] + [n]];
    forall m | 0 <= m < |kids2| ensures KidsRanked(kids2, rank, m) {
      assert KidsRanked(kids, rank, m);
    }
  }

  /** A new node whose children all rank above its own rank `r` keeps the forest valid. */
  lemma LeafKeepsValid(texts: seq<string>, levels: seq<nat>, kids: seq<seq<nat>>, rank: seq<nat>, bound: nat,
                       text: string, level: nat, children: seq<nat>, r: nat, bound2: nat)
    requires ValidOn(texts, levels, kids, rank, bound) && bound <= bound2 && r < bound2
    requires forall j :: 0 <= j < |children| ==> children[j] < |kids| && r < rank[children[j]]
    ensures ValidOn(texts + [text], levels + [level], kids + [children], rank + [r], bound2)
  {
    var kids2 := kids + [children];
    var rank2 := rank + [r];
    forall m | 0 <= m < |kids2| ensures KidsRanked(kids2, rank2, m) {
      if m < |kids| {
        assert KidsRanked(kids, rank, m);
      }
    }
  }

  /**
   * All `Node` objects: node `n` has `texts[n]`, `levels[n]` and the children list `kids[n]`. The
   * ghost `rank` grows along every parent-child edge and stays below `bound`.
   */
  class Forest {
    var texts: seq<string>
    var levels: seq<nat>
    var kids: seq<seq<nat>>
    ghost var rank: seq<nat>
    ghost var bound: nat

    ghost predicate Valid()
      reads this
    {
      ValidOn(texts, levels, kids, rank, bound)
    }

    /** The node `n`: every child index refers to a node of the forest. */
    predicate Has(n: nat)
      reads this
    {
      n < |texts| == |levels| == |kids|
    }

    constructor ()
      ensures Valid() && texts == [] && levels == [] && kids == []
    {
      texts, levels, kids := [], [], [];
      rank, bound := [], 0;
    }

    /** `Node(indented_line, sep)`: a new node without children. */
    method NewNode(line: string, sep: string) returns (n: nat)
      requires Valid() && sep != ""
      modifies this
      ensures Valid() && n == old(|texts|)
      ensures texts == old(texts) + [NodeText(line, sep)]
      ensures levels == old(levels) + [NodeLevel(line, sep)]
      ensures kids == old(kids) + [[]]
    {
      LeafKeepsValid(texts, levels, kids, rank, bound, NodeText(line, sep), NodeLevel(line, sep), [], 0, bound + 1);
      n := |texts|;
      texts := texts + [NodeText(line, sep)];
      levels := levels + [NodeLevel(line, sep)];
      kids := kids + [[]];
      rank := rank + [0];
      bound := bound + 1;
    }

    /** A node with the given fields, whose children all rank above `r`. */
    method NewLeaf(text: string, level: nat, children: seq<nat>, ghost r: nat) returns (n: nat)
      requires Valid() && r < bound
      requires forall j :: 0 <= j < |children| ==> children[j] < |texts| && r < rank[children[j]]
      modifies this
      ensures Valid() && n == old(|texts|) && rank == old(rank) + [r] && bound == old(bound)
      ensures texts == old(texts) + [text] && levels == old(levels) + [level] && kids == old(kids) + [children]
    {
      LeafKeepsValid(texts, levels, kids, rank, bound, text, level, children, r, bound);
      n := |texts|;
      texts := texts + [text];
      levels := levels + [level];
      kids := kids + [children];
      rank := rank + [r];
    }

    /** `parent.children.append(n)` for a node ranked above the parent. */
    method AppendChild(parent: nat, n: nat)
      requires Valid() && parent < |kids| && n < |kids| && rank[parent] < rank[n]
      modifies this
      ensures Valid() && rank == old(rank) && bound == old(bound)
      ensures texts == old(texts) && levels == old(levels)
      ensures kids == old(kids)[parent := old(kids[parent]) + [n]]
    {
      AppendKeepsValid(texts, levels, kids, rank, bound, parent, n);
      kids := kids[parent := kids[parent] + [n]];
    }

    /**
     * `add_children(nodes)` for the receiver `p` and fresh, distinct nodes without children. The
     * levels are checked first, node by node: a node below the receiver or below the first node
     * raises and nothing changes. Then each node is attached in input order, as the evidently
     * intended `__add_children` does, until a node more than one level deeper than the one before it
     * raises; the nodes before it stay attached.
     */
    method AddChildren(p: nat, ns: seq<nat>) returns (err: Option<TreeError>)
      requires Valid() && p < |texts|
      requires forall k :: 0 <= k < |ns| ==> ns[k] < |texts| && ns[k] != p && kids[ns[k]] == []
      requires NoRepeats(ns)
      modifies this
      ensures Valid() && texts == old(texts) && levels == old(levels)
      ensures ns == [] ==> err.None? && kids == old(kids)
      ensures ns != [] && FirstBelow(levels[p], LevelsAt(levels, ns)) < |ns| ==>
                var b := FirstBelow(levels[p], LevelsAt(levels, ns));
                err == Some(BelowError(levels[p], LevelsAt(levels, ns), b, texts[ns[b]])) && kids == old(kids)
      ensures ns != [] && FirstBelow(levels[p], LevelsAt(levels, ns)) == |ns| ==>
                var lv := LevelsAt(levels, ns);
                var j := FirstJump(lv);
                (err.None? <==> j == |ns|) && (j < |ns| ==> err == Some(TooDeep(texts[ns[j]])))
                && |kids| == old(|kids|)
                && forall x :: 0 <= x < |kids| ==> kids[x] == old(kids[x]) + Attached(p, ns, lv, x, j)
    {
      if ns == [] {
        return None;
      }
      var lv := LevelsAt(levels, ns);
      var i := 0;
      while i < |ns|
        invariant i <= |ns| && forall k :: 0 <= k < i ==> levels[p] <= lv[k] && lv[0] <= lv[k]
      {
        if levels[p] > lv[i] || lv[0] > lv[i] {
          assert FirstBelow(levels[p], lv) == i by {
            BelowFromAt(levels[p], lv, 0, i);
          }
          return Some(BelowError(levels[p], lv, i, texts[ns[i]]));
        }
        i := i + 1;
      }
      assert FirstBelow(levels[p], lv) == |ns| by {
        BelowFromAt(levels[p], lv, 0, |ns|);
      }
      err := AttachAll(p, ns, lv);
    }

    /** The attach loop: `chain[d]` is the most recent node at `d` levels below the first node. */
    method AttachAll(p: nat, ns: seq<nat>, lv: seq<nat>) returns (err: Option<TreeError>)
      requires Valid() && p < |texts| && ns != [] && |lv| == |ns|
      requires forall k :: 0 <= k < |ns| ==> ns[k] < |texts| && ns[k] != p && kids[ns[k]] == []
      requires NoRepeats(ns)
      requires forall k :: 0 <= k < |ns| ==> lv[0] <= lv[k]
      modifies this
      ensures Valid() && texts == old(texts) && levels == old(levels) && |kids| == old(|kids|)
      ensures (err.None? <==> FirstJump(lv) == |ns|)
      ensures FirstJump(lv) < |ns| ==> err == Some(TooDeep(texts[ns[FirstJump(lv)]]))
      ensures forall x :: 0 <= x < |kids| ==> kids[x] == old(kids[x]) + Attached(p, ns, lv, x, FirstJump(lv))
    {
      var ks;
      ghost var rk, bd;
      err, ks, rk, bd := AttachLoop(texts, levels, kids, rank, bound, p, ns, lv);
      kids, rank, bound := ks, rk, bd;
    }

    /**
     * One `node = Node(nd)` of `add_nodes_narrower` with its level, its children from `nodes`, and
     * the append to the receiver when no key lists `nd` as a child; then `nodes[nd] = node`.
     */
    method MakeNode(p: nat, nar: Dict<string, seq<string>>, made: Dict<string, nat>, nd: string, level: nat,
                    ghost e: (string, nat), ghost base: nat, ghost texts0: seq<string>, ghost levels0: seq<nat>, ghost kids0: seq<seq<nat>>)
      returns (made2: Dict<string, nat>)
      requires p < |rank| && BuiltOn(texts, levels, kids, rank, bound, p, nar, made, base, texts0, levels0, kids0, rank[p] + |nar| + 1 - |made|)
      requires nd in Keys(nar) && nd !in Keys(made) && Ready(Get(nar, nd).value, Keys(made)) && |made| < |nar|
      requires GetLevel(nar, nd, levels[p], |nar| + 1) == Some(level) && e == (nd, base + |made|)
      modifies this
      ensures made2 == made + [e] && |rank| == old(|rank|) + 1 && rank[p] == old(rank[p])
      ensures BuiltOn(texts, levels, kids, rank, bound, p, nar, made2, base, texts0, levels0, kids0, rank[p] + |nar| + 1 - |made2|)
    {
      ghost var r := rank[p] + |nar| + 1 - |made|;
      var v := Get(nar, nd).value;
      var children := NodesOf(v, made);
      MakeReady(texts, levels, kids, rank, bound, p, nar, made, base, texts0, levels0, kids0, r, nd, r);
      ghost var texts1, levels1, kids1, rank1 := texts, levels, kids, rank;
      var n := NewLeaf(NodeText(nd, " "), level, children, r);
      assert (nd, n) == e;
      if nd !in AllChildren(nar) {
        AppendChild(p, n);
      }
      MakeStep(texts1, levels1, kids1, rank1, bound, p, nar, made, base, texts0, levels0, kids0, r, nd, level, r,
               texts, levels, kids, rank, made + [(nd, n)], r - 1);
      made2 := made + [(nd, n)];
      assert r - 1 == rank[p] + |nar| + 1 - |made2|;
    }

    /**
     * One entry of the first loop of `add_nodes_narrower`: a key without children that is nobody's
     * child becomes a node under the receiver at once; every other entry goes on the stack.
     */
    method AddEntry(p: nat, nar: Dict<string, seq<string>>, made: Dict<string, nat>, stack: Dict<string, seq<string>>,
                    i: nat, ghost base: nat, ghost texts0: seq<string>, ghost levels0: seq<nat>, ghost kids0: seq<seq<nat>>)
      returns (made2: Dict<string, nat>, stack2: Dict<string, seq<string>>)
      requires FreshKeys(nar) && i < |nar|
      requires ProgressOn(texts, levels, kids, rank, bound, p, nar, made, stack, base, texts0, levels0, kids0)
      requires LeafScan(nar, made, stack, i)
      modifies this
      ensures ProgressOn(texts, levels, kids, rank, bound, p, nar, made2, stack2, base, texts0, levels0, kids0)
      ensures LeafScan(nar, made2, stack2, i + 1)
    {
      var nd, v := nar[i].0, nar[i].1;
      if v == [] && nd !in AllChildren(nar) {
        ghost var e: (string, nat) := (nd, base + |made|);
        LeafStep(texts, levels, kids, p, nar, made, stack, base, texts0, levels0, kids0, i, e);
        RootKeepsLevel(nar, nd, levels[p], |nar| + 1);
        made2 := MakeNode(p, nar, made, nd, levels[p], e, base, texts0, levels0, kids0);
        stack2 := stack;
      } else {
        StackStep(nar, made, stack, i);
        made2, stack2 := made, stack + [(nd, v)];
      }
    }

    /** The first loop of `add_nodes_narrower`, over the entries of the dict in order. */
    method AddLeaves(p: nat, nar: Dict<string, seq<string>>, ghost base: nat, ghost texts0: seq<string>,
                     ghost levels0: seq<nat>, ghost kids0: seq<seq<nat>>)
      returns (made: Dict<string, nat>, stack: Dict<string, seq<string>>)
      requires FreshKeys(nar) && ProgressOn(texts, levels, kids, rank, bound, p, nar, [], [], base, texts0, levels0, kids0)
      modifies this
      ensures ProgressOn(texts, levels, kids, rank, bound, p, nar, made, stack, base, texts0, levels0, kids0) && Covered(nar, made, stack)
      ensures forall e :: e in stack ==> e.1 != [] || e.0 in AllChildren(nar)
      ensures forall i :: 0 <= i < |made| ==> Get(nar, made[i].0) == Some([]) && made[i].0 !in AllChildren(nar)
    {
      made, stack := [], [];
      var i := 0;
      while i < |nar|
        invariant i <= |nar| && ProgressOn(texts, levels, kids, rank, bound, p, nar, made, stack, base, texts0, levels0, kids0)
        invariant LeafScan(nar, made, stack, i)
      {
        made, stack := AddEntry(p, nar, made, stack, i, base, texts0, levels0, kids0);
        i := i + 1;
      }
    }

    /**
     * One entry of a pass of the `while stack` loop: it becomes a node with the level `get_level`
     * gives it (the receiver's at root level), takes the nodes of its children and leaves the stack.
     * A level `get_level` cannot reach stops the pass.
     */
    method AddReady(p: nat, nar: Dict<string, seq<string>>, made: Dict<string, nat>,
                    stack: Dict<string, seq<string>>, rest: Dict<string, seq<string>>,
                    ghost base: nat, ghost texts0: seq<string>, ghost levels0: seq<nat>, ghost kids0: seq<seq<nat>>)
      returns (err: Option<TreeError>, made2: Dict<string, nat>, stack2: Dict<string, seq<string>>)
      requires FreshKeys(nar) && ProgressOn(texts, levels, kids, rank, bound, p, nar, made, stack, base, texts0, levels0, kids0)
      requires Covered(nar, made, stack) && rest != [] && NoRepeats(rest) && ReadyIn(rest, stack, made)
      modifies this
      ensures ProgressOn(texts, levels, kids, rank, bound, p, nar, made2, stack2, base, texts0, levels0, kids0) && Covered(nar, made2, stack2)
      ensures err.None? ==> |stack2| == |stack| - 1 && NoRepeats(rest[1..]) && ReadyIn(rest[1..], stack2, made2)
      ensures err.Some? ==> err == Some(DepthExceeded) && exists ks :: SelfFed(nar, ks)
    {
      var nd := rest[0].0;
      var level := GetLevel(nar, nd, levels[p], |nar| + 1);
      if level.None? {
        FreshKeysDistinct(nar);
        ghost var ks := NoLevelSelfFed(nar, nd, levels[p]);
        return Some(DepthExceeded), made, stack;
      }
      if nd !in AllChildren(nar) {
        RootKeepsLevel(nar, nd, levels[p], |nar| + 1);
        level := Some(levels[p]);
      }
      ghost var e: (string, nat) := (nd, base + |made|);
      RoundStep(texts, levels, kids, p, nar, made, stack, base, texts0, levels0, kids0, rest, e);
      made2 := MakeNode(p, nar, made, nd, level.value, e, base, texts0, levels0, kids0);
      stack2 := RemoveFirst(stack, rest[0]);
      err := None;
    }

    /** One pass of the `while stack` loop over the ready entries `toAdd`, in stack order. */
    method AddRound(p: nat, nar: Dict<string, seq<string>>, made: Dict<string, nat>,
                    stack: Dict<string, seq<string>>, toAdd: Dict<string, seq<string>>,
                    ghost base: nat, ghost texts0: seq<string>, ghost levels0: seq<nat>, ghost kids0: seq<seq<nat>>)
      returns (err: Option<TreeError>, made2: Dict<string, nat>, stack2: Dict<string, seq<string>>)
      requires FreshKeys(nar) && ProgressOn(texts, levels, kids, rank, bound, p, nar, made, stack, base, texts0, levels0, kids0)
      requires Covered(nar, made, stack) && NoRepeats(toAdd) && ReadyIn(toAdd, stack, made)
      modifies this
      ensures ProgressOn(texts, levels, kids, rank, bound, p, nar, made2, stack2, base, texts0, levels0, kids0) && Covered(nar, made2, stack2)
      ensures err.None? ==> |stack2| == |stack| - |toAdd|
      ensures err.Some? ==> err == Some(DepthExceeded) && exists ks :: SelfFed(nar, ks)
    {
      made2, stack2 := made, stack;
      var rest := toAdd;
      while rest != []
        invariant ProgressOn(texts, levels, kids, rank, bound, p, nar, made2, stack2, base, texts0, levels0, kids0) && Covered(nar, made2, stack2)
        invariant NoRepeats(rest) && ReadyIn(rest, stack2, made2)
        invariant |stack2| + |toAdd| == |stack| + |rest|
      {
        err, made2, stack2 := AddReady(p, nar, made2, stack2, rest, base, texts0, levels0, kids0);
        if err.Some? {
          return;
        }
        rest := rest[1..];
      }
      err := None;
    }

    /**
     * `add_nodes_narrower(narrower)` on the receiver `p`: a child that is not a key raises before
     * anything changes. The source never returns when a pass finds no ready entry, and recurses
     * without end in `get_level` on a cycle of first parents; both happen only on a cycle of the
     * dict. On success every key becomes one new node, which takes the nodes of its children as
     * children and, when it is nobody's child, goes under the receiver (`GrownOn`); `nodes` is the
     * dict of the new nodes.
     */
    method AddNodesNarrower(p: nat, nar: Dict<string, seq<string>>) returns (err: Option<TreeError>, nodes: Dict<string, nat>)
      requires Valid() && p < |texts| && DistinctKeys(nar)
      modifies this
      ensures Valid()
      ensures err.Some? && err.value.ChildUndefined? <==> !AllDefined(nar)
      ensures !AllDefined(nar) ==> texts == old(texts) && levels == old(levels) && kids == old(kids)
      ensures !AllDefined(nar) ==>
                exists i :: 0 <= i < |AllChildren(nar)| && AllChildren(nar)[i] == err.value.text
                            && err.value.text !in Keys(nar) && forall j :: 0 <= j < i ==> AllChildren(nar)[j] in Keys(nar)
      ensures err.Some? ==> err.value.ChildUndefined? || err.value == Stuck || err.value == DepthExceeded
      ensures err == Some(Stuck) || err == Some(DepthExceeded) ==> exists ks :: SelfFed(nar, ks)
      ensures AllDefined(nar) && WellFounded(nar) ==> err.None?
      ensures err.None? ==> GrownOn(texts, levels, kids, p, nar, nodes, old(|texts|), old(texts), old(levels), old(kids))
                            && forall k :: k in Keys(nar) ==> k in Keys(nodes)
    {
      var u := FirstUndefinedChild(nar);
      if u.Some? {
        return Some(ChildUndefined(u.value)), [];
      }
      if bound <= rank[p] + |nar| + 1 {
        bound := rank[p] + |nar| + 2;
      }
      ghost var base, texts0, levels0, kids0 := |texts|, texts, levels, kids;
      StartBuilt(texts, levels, kids, rank, bound, p, nar);
      DistinctKeysFresh(nar);
      var stack;
      nodes, stack := AddLeaves(p, nar, base, texts0, levels0, kids0);
      while stack != []
        invariant ProgressOn(texts, levels, kids, rank, bound, p, nar, nodes, stack, base, texts0, levels0, kids0) && Covered(nar, nodes, stack)
        decreases |stack|
      {
        var toAdd := ReadyEntries(stack, Keys(nodes));
        if toAdd == [] {
          StuckSelfFed(nar, nodes, stack);
          SelfFedNotWellFounded(nar, Keys(stack));
          return Some(Stuck), nodes;
        }
        var e;
        e, nodes, stack := AddRound(p, nar, nodes, stack, toAdd, base, texts0, levels0, kids0);
        if e.Some? {
          ghost var ks :| SelfFed(nar, ks);
          SelfFedNotWellFounded(nar, ks);
          return e, nodes;
        }
      }
      CoveredAll(nar, nodes);
      err := None;
    }
  }

  // ---------------------------------------------------------------------------------------------
  // The stack of add_nodes_narrower

  /** `stack.remove(x)`: the first occurrence goes. */
  function RemoveFirst<T(==)>(s: seq<T>, x: T): (r: seq<T>)
    ensures x in s ==> |r| == |s| - 1
    ensures x !in s ==> r == s
    ensures forall y :: y in r ==> y in s
    ensures forall y :: y in s && y != x ==> y in r
  {
    if s == [] then []
    else if s[0] == x then s[1..]
    else [s[0]] + RemoveFirst(s[1..], x)
  }

  /** Without repeats, the removed element is gone and no element repeats. */
  lemma {:induction false} RemoveFirstNoRepeats<T>(s: seq<T>, x: T)
    requires NoRepeats(s)
    ensures NoRepeats(RemoveFirst(s, x)) && x !in RemoveFirst(s, x)
  {
    if s != [] && s[0] != x {
      RemoveFirstNoRepeats(s[1..], x);
      assert ([s[0]] + RemoveFirst(s[1..], x))[1..] == RemoveFirst(s[1..], x);
    }
  }

  /** A new element keeps a list without repeats. */
  lemma {:induction false} NoRepeatsAppend<T>(s: seq<T>, x: T)
    requires NoRepeats(s) && x !in s
    ensures NoRepeats(s + [x])
  {
    if s != [] {
      assert (s + [x])[1..] == s[1..] + [x];
      NoRepeatsAppend(s[1..], x);
    } else {
      assert [x][1..] == [];
    }
  }

  /** The entries of the stack whose children all have a node, in stack order. */
  function ReadyOf(stack: Dict<string, seq<string>>, keys: seq<string>): (r: Dict<string, seq<string>>)
    ensures forall e :: e in r <==> e in stack && Ready(e.1, keys)
    ensures |r| <= |stack|
    ensures NoRepeats(stack) ==> NoRepeats(r)
  {
    if stack == [] then []
    else
      var rest := ReadyOf(stack[1..], keys);
      if Ready(stack[0].1, keys) then
        assert ([stack[0]] + rest)[1..] == rest;
        [stack[0]] + rest
      else rest
  }

  /** `all_children_defined`: the inner loop over the children of one entry. */
  method AllChildrenDefined(v: seq<string>, keys: seq<string>) returns (b: bool)
    ensures b <==> Ready(v, keys)
  {
    b := true;
    var j := 0;
    while j < |v|
      invariant j <= |v| && (b <==> forall m :: 0 <= m < j ==> v[m] in keys)
    {
      if v[j] !in keys {
        b := false;
      }
      j := j + 1;
    }
  }

  /** `to_add`: the pass over the stack that collects the entries whose children all have a node. */
  method ReadyEntries(stack: Dict<string, seq<string>>, keys: seq<string>) returns (toAdd: Dict<string, seq<string>>)
    ensures toAdd == ReadyOf(stack, keys)
  {
    toAdd := [];
    var i := 0;
    assert stack[0..] == stack;
    while i < |stack|
      invariant i <= |stack| && toAdd + ReadyOf(stack[i..], keys) == ReadyOf(stack, keys)
    {
      var defined := AllChildrenDefined(stack[i].1, keys);
      ReadyOfFrom(stack, i, keys);
      ConcatAssoc(toAdd, if defined then [stack[i]] else [], ReadyOf(stack[i + 1..], keys));
      if defined {
        toAdd := toAdd + [stack[i]];
      } else {
        assert toAdd + [] == toAdd;
      }
      i := i + 1;
    }
    assert toAdd + [] == toAdd;
  }

  /** One entry of the pass over the stack. */
  lemma ReadyOfFrom(stack: Dict<string, seq<string>>, i: nat, keys: seq<string>)
    requires i < |stack|
    ensures ReadyOf(stack[i..], keys) == (if Ready(stack[i].1, keys) then [stack[i]] else []) + ReadyOf(stack[i + 1..], keys)
  {
    assert stack[i..][1..] == stack[i + 1..];
  }

  /** What waits on the stack: distinct entries of the dict whose keys have no node yet. */
  ghost predicate Pending(nar: Dict<string, seq<string>>, made: Dict<string, nat>, stack: Dict<string, seq<string>>) {
    NoRepeats(stack) && forall j :: 0 <= j < |stack| ==> stack[j] in nar && stack[j].0 !in Keys(made)
  }

  /** The first `i` entries of the dict have a node or wait on the stack. */
  ghost predicate SeenUpTo(nar: Dict<string, seq<string>>, made: Dict<string, nat>, stack: Dict<string, seq<string>>, i: nat)
    requires i <= |nar|
  {
    forall k :: 0 <= k < i ==> nar[k].0 in Keys(made) || nar[k] in stack
  }

  /** The entries of the dict from `i` on have no node and are not on the stack. */
  ghost predicate UnseenFrom(nar: Dict<string, seq<string>>, made: Dict<string, nat>, stack: Dict<string, seq<string>>, i: nat)
    requires i <= |nar|
  {
    forall k :: i <= k < |nar| ==> nar[k].0 !in Keys(made) && nar[k] !in stack
  }

  /**
   * Where the first loop is before entry `i`: the entries before it have a node or wait on the
   * stack, the others neither; only childless keys that are nobody's child have a node, and the
   * stack holds the rest.
   */
  ghost predicate LeafScan(nar: Dict<string, seq<string>>, made: Dict<string, nat>, stack: Dict<string, seq<string>>, i: nat)
    requires i <= |nar|
  {
    SeenUpTo(nar, made, stack, i) && UnseenFrom(nar, made, stack, i)
    && (forall e :: e in stack ==> e.1 != [] || e.0 in AllChildren(nar))
    && forall j :: 0 <= j < |made| ==> Get(nar, made[j].0) == Some([]) && made[j].0 !in AllChildren(nar)
  }

  /** The entries of a pass still to go are on the stack, with every child made. */
  ghost predicate ReadyIn(rest: Dict<string, seq<string>>, stack: Dict<string, seq<string>>, made: Dict<string, nat>) {
    forall e :: e in rest ==> e in stack && Ready(e.1, Keys(made))
  }

  /** Every entry of the dict has a node or waits on the stack. */
  ghost predicate Covered(nar: Dict<string, seq<string>>, made: Dict<string, nat>, stack: Dict<string, seq<string>>) {
    forall k :: 0 <= k < |nar| ==> nar[k].0 in Keys(made) || nar[k] in stack
  }

  /**
   * A pass that finds nothing ready: every entry on the stack waits for a child without a node,
   * which (all children being keys) waits on the stack too, so the stack's keys are self-fed.
   */
  lemma StuckSelfFed(nar: Dict<string, seq<string>>, made: Dict<string, nat>, stack: Dict<string, seq<string>>)
    requires DistinctKeys(nar) && AllDefined(nar) && Pending(nar, made, stack) && Covered(nar, made, stack)
    requires stack != [] && ReadyOf(stack, Keys(made)) == []
    ensures SelfFed(nar, Keys(stack))
  {
    var ks := Keys(stack);
    AllChildrenHas(nar);
    forall k | k in ks ensures exists c :: c in ks && c in ChildrenIn(nar, k) {
      var m :| 0 <= m < |stack| && ks[m] == k;
      var e := stack[m];
      EntryFound(nar, e);
      assert !Ready(e.1, Keys(made));
      var c :| c in e.1 && c !in Keys(made);
      var i :| 0 <= i < |nar| && nar[i] == e;
      assert c in AllChildren(nar);
      var q :| 0 <= q < |nar| && Keys(nar)[q] == c;
      assert nar[q] in stack;
      var t :| 0 <= t < |stack| && stack[t] == nar[q];
      assert ks[t] == c;
    }
  }

  /** With an empty stack, every key has a node. */
  lemma CoveredAll(nar: Dict<string, seq<string>>, made: Dict<string, nat>)
    requires Covered(nar, made, [])
    ensures forall k :: k in Keys(nar) ==> k in Keys(made)
  {
    forall k | k in Keys(nar) ensures k in Keys(made) {
      var q :| 0 <= q < |nar| && Keys(nar)[q] == k;
    }
  }

  /** Two entries of a dict with the same key are the same entry. */
  lemma SameKeySameEntry(nar: Dict<string, seq<string>>, e: (string, seq<string>), e': (string, seq<string>))
    requires DistinctKeys(nar) && e in nar && e' in nar && e.0 == e'.0
    ensures e == e'
  {
    var a :| 0 <= a < |nar| && nar[a] == e;
    var b :| 0 <= b < |nar| && nar[b] == e';
  }

  /** The keys of an entry of a dict find that entry. */
  lemma EntryFound(nar: Dict<string, seq<string>>, e: (string, seq<string>))
    requires DistinctKeys(nar) && e in nar
    ensures Get(nar, e.0) == Some(e.1) && e.0 in Keys(nar)
  {
    var a :| 0 <= a < |nar| && nar[a] == e;
    GetAt(nar, a);
  }

  /** A list of distinct elements of `b` is no longer than `b`. */
  lemma {:induction false} FewerKeys(a: seq<string>, b: seq<string>)
    requires forall i, j :: 0 <= i < j < |a| ==> a[i] != a[j]
    requires forall x :: x in a ==> x in b
    ensures |a| <= |b|
  {
    if a != [] {
      var x := a[|a| - 1];
      assert x in a;
      var i :| 0 <= i < |b| && b[i] == x;
      var b' := b[..i] + b[i + 1..];
      var a' := a[..|a| - 1];
      forall y | y in a' ensures y in b' {
        var k :| 0 <= k < |a'| && a'[k] == y;
        assert a[k] == y && y != x && y in a;
        var m :| 0 <= m < |b| && b[m] == y;
        if m < i {
          assert b'[m] == y;
        } else {
          assert b'[m - 1] == y;
        }
      }
      FewerKeys(a', b');
    }
  }

  /** The keys with a node are keys of the dict, and distinct. */
  lemma {:induction false} MadeKeys(texts: seq<string>, levels: seq<nat>, kids: seq<seq<nat>>, p: nat,
                                    nar: Dict<string, seq<string>>, made: Dict<string, nat>, base: nat,
                                    texts0: seq<string>, levels0: seq<nat>, kids0: seq<seq<nat>>)
    requires GrownOn(texts, levels, kids, p, nar, made, base, texts0, levels0, kids0)
    ensures DistinctKeys(made) && forall m :: 0 <= m < |made| ==> made[m].0 in Keys(nar)
  {
    FreshKeysDistinct(made);
    forall m | 0 <= m < |made| ensures made[m].0 in Keys(nar) {
      assert MadeAt(texts, levels, kids, p, nar, made, base, m);
    }
  }

  /** A key of the dict without a node leaves room: fewer nodes than keys are made. */
  lemma {:induction false} RoomLeft(texts: seq<string>, levels: seq<nat>, kids: seq<seq<nat>>, p: nat,
                                    nar: Dict<string, seq<string>>, made: Dict<string, nat>, base: nat,
                                    texts0: seq<string>, levels0: seq<nat>, kids0: seq<seq<nat>>, nd: string)
    requires GrownOn(texts, levels, kids, p, nar, made, base, texts0, levels0, kids0)
    requires nd in Keys(nar) && nd !in Keys(made)
    ensures |made| < |nar|
  {
    MadeKeys(texts, levels, kids, p, nar, made, base, texts0, levels0, kids0);
    var a := Keys(made) + [nd];
    forall i, j | 0 <= i < j < |a| ensures a[i] != a[j] {
      if j < |made| {
        assert a[i] == made[i].0 && a[j] == made[j].0;
      } else {
        assert a[i] == Keys(made)[i];
      }
    }
    forall x | x in a ensures x in Keys(nar) {
      var k :| 0 <= k < |a| && a[k] == x;
      if k < |made| {
        assert x == made[k].0;
      }
    }
    FewerKeys(a, Keys(nar));
  }

  /** A leaf of the first loop: its key has no node and leaves room for one more. */
  lemma {:induction false} LeafStep(texts: seq<string>, levels: seq<nat>, kids: seq<seq<nat>>, p: nat,
                                    nar: Dict<string, seq<string>>, made: Dict<string, nat>,
                                    stack: Dict<string, seq<string>>, base: nat,
                                    texts0: seq<string>, levels0: seq<nat>, kids0: seq<seq<nat>>, i: nat, e: (string, nat))
    requires GrownOn(texts, levels, kids, p, nar, made, base, texts0, levels0, kids0)
    requires FreshKeys(nar) && i < |nar| && Pending(nar, made, stack) && LeafScan(nar, made, stack, i)
    requires nar[i].1 == [] && nar[i].0 !in AllChildren(nar) && e.0 == nar[i].0
    ensures Get(nar, nar[i].0) == Some(nar[i].1) && nar[i].0 in Keys(nar) && nar[i].0 !in Keys(made)
    ensures |made| < |nar|
    ensures Pending(nar, made + [e], stack) && LeafScan(nar, made + [e], stack, i + 1)
  {
    FreshKeysDistinct(nar);
    GetAt(nar, i);
    RoomLeft(texts, levels, kids, p, nar, made, base, texts0, levels0, kids0, nar[i].0);
    var made2 := made + [e];
    assert Keys(made2) == Keys(made) + [nar[i].0];
    forall j | 0 <= j < |stack| ensures stack[j].0 != nar[i].0 {
      var q :| 0 <= q < |nar| && nar[q] == stack[j];
    }
    assert nar[i].0 in Keys(made2);
    forall j | 0 <= j < |made2| ensures Get(nar, made2[j].0) == Some([]) && made2[j].0 !in AllChildren(nar) {
      if j < |made| {
        assert made2[j] == made[j];
      }
    }
  }

  /** An entry of the first loop that goes on the stack. */
  lemma StackStep(nar: Dict<string, seq<string>>, made: Dict<string, nat>, stack: Dict<string, seq<string>>, i: nat)
    requires FreshKeys(nar) && i < |nar| && Pending(nar, made, stack) && LeafScan(nar, made, stack, i)
    requires nar[i].1 != [] || nar[i].0 in AllChildren(nar)
    ensures Pending(nar, made, stack + [(nar[i].0, nar[i].1)])
    ensures LeafScan(nar, made, stack + [(nar[i].0, nar[i].1)], i + 1)
  {
    FreshKeysDistinct(nar);
    var x := nar[i];
    assert (nar[i].0, nar[i].1) == x;
    assert x !in stack && x.0 !in Keys(made);
    NoRepeatsAppend(stack, x);
    var s2 := stack + [x];
    forall j | 0 <= j < |s2| ensures s2[j] in nar && s2[j].0 !in Keys(made) {
      if j < |stack| {
        assert s2[j] == stack[j];
      }
    }
    forall e | e in s2 ensures e.1 != [] || e.0 in AllChildren(nar) {
      if e != x {
        assert e in stack;
      }
    }
    forall k | 0 <= k < i + 1 ensures nar[k].0 in Keys(made) || nar[k] in s2 {
      if k < i {
        assert nar[k].0 in Keys(made) || nar[k] in stack;
      }
    }
    forall k | i + 1 <= k < |nar| ensures nar[k].0 !in Keys(made) && nar[k] !in s2 {
      assert nar[k].0 != x.0;
    }
  }

  /**
   * One ready entry of a pass: it is an entry of the dict without a node, and once it has one and
   * leaves the stack, the rest of the pass is still ready and still waits.
   */
  lemma {:induction false} RoundStep(texts: seq<string>, levels: seq<nat>, kids: seq<seq<nat>>, p: nat,
                                     nar: Dict<string, seq<string>>, made: Dict<string, nat>,
                                     stack: Dict<string, seq<string>>, base: nat,
                                     texts0: seq<string>, levels0: seq<nat>, kids0: seq<seq<nat>>,
                                     rest: Dict<string, seq<string>>, e2: (string, nat))
    requires GrownOn(texts, levels, kids, p, nar, made, base, texts0, levels0, kids0)
    requires FreshKeys(nar) && Pending(nar, made, stack) && Covered(nar, made, stack)
    requires rest != [] && NoRepeats(rest) && ReadyIn(rest, stack, made) && e2.0 == rest[0].0
    ensures var e := rest[0];
            Get(nar, e.0) == Some(e.1) && e.0 in Keys(nar) && e.0 !in Keys(made) && Ready(e.1, Keys(made))
            && |made| < |nar|
    ensures var e := rest[0]; var made2 := made + [e2]; var stack2 := RemoveFirst(stack, e);
            Pending(nar, made2, stack2) && Covered(nar, made2, stack2) && |stack2| == |stack| - 1
            && NoRepeats(rest[1..]) && ReadyIn(rest[1..], stack2, made2)
  {
    var e := rest[0];
    assert e in rest && e in stack;
    var made2 := made + [e2];
    var stack2 := RemoveFirst(stack, e);
    FreshKeysDistinct(nar);
    EntryFound(nar, e);
    RoomLeft(texts, levels, kids, p, nar, made, base, texts0, levels0, kids0, e.0);
    assert Keys(made2) == Keys(made) + [e.0];
    RemoveFirstNoRepeats(stack, e);
    forall j | 0 <= j < |stack2| ensures stack2[j] in nar && stack2[j].0 !in Keys(made2) {
      var x := stack2[j];
      assert x in stack && x != e;
      if x.0 == e.0 {
        SameKeySameEntry(nar, x, e);
      }
    }
    forall k | 0 <= k < |nar| ensures nar[k].0 in Keys(made2) || nar[k] in stack2 {
      if nar[k] !in stack2 && nar[k].0 !in Keys(made) {
        assert nar[k] == e;
      }
    }
    forall e' | e' in rest[1..] ensures e' in stack2 && Ready(e'.1, Keys(made2)) {
      assert e' in rest && e' != e;
    }
  }

  /** At the start of `add_nodes_narrower` nothing is built yet. */
  lemma StartBuilt(texts: seq<string>, levels: seq<nat>, kids: seq<seq<nat>>, rank: seq<nat>, bound: nat,
                   p: nat, nar: Dict<string, seq<string>>)
    requires ValidOn(texts, levels, kids, rank, bound) && p < |texts| && rank[p] + |nar| + 1 < bound
    ensures BuiltOn(texts, levels, kids, rank, bound, p, nar, [], |texts|, texts, levels, kids, rank[p] + |nar| + 1)
    ensures Pending(nar, [], [])
  {
    assert texts[..|texts|] == texts && levels[..|levels|] == levels;
    assert kids[p] + RootNodes([], AllChildren(nar)) == kids[p];
  }

  /** Where `add_nodes_narrower` is: what is built so far, and the entries still on the stack. */
  ghost predicate ProgressOn(texts: seq<string>, levels: seq<nat>, kids: seq<seq<nat>>, rank: seq<nat>, bound: nat,
                             p: nat, nar: Dict<string, seq<string>>, made: Dict<string, nat>,
                             stack: Dict<string, seq<string>>, base: nat,
                             texts0: seq<string>, levels0: seq<nat>, kids0: seq<seq<nat>>)
  {
    p < |rank| && BuiltOn(texts, levels, kids, rank, bound, p, nar, made, base, texts0, levels0, kids0, rank[p] + |nar| + 1 - |made|)
    && Pending(nar, made, stack)
  }

  /**
   * `GrownOn` on a valid forest, with the ranks of the new nodes above `low` and room below `bound`
   * for a chain of `|nar| + 1` ranks above the receiver.
   */
  ghost predicate BuiltOn(texts: seq<string>, levels: seq<nat>, kids: seq<seq<nat>>, rank: seq<nat>, bound: nat,
                          p: nat, nar: Dict<string, seq<string>>, made: Dict<string, nat>, base: nat,
                          texts0: seq<string>, levels0: seq<nat>, kids0: seq<seq<nat>>, low: int)
  {
    ValidOn(texts, levels, kids, rank, bound)
    && GrownOn(texts, levels, kids, p, nar, made, base, texts0, levels0, kids0)
    && rank[p] + |nar| + 1 < bound
    && forall i :: 0 <= i < |made| && made[i].1 < |rank| ==> low < rank[made[i].1]
  }

  /** Before one node of `add_nodes_narrower`: its children are nodes ranked above `r`. */
  lemma {:induction false} MakeReady(texts: seq<string>, levels: seq<nat>, kids: seq<seq<nat>>, rank: seq<nat>, bound: nat,
                 p: nat, nar: Dict<string, seq<string>>, made: Dict<string, nat>, base: nat,
                 texts0: seq<string>, levels0: seq<nat>, kids0: seq<seq<nat>>, low: int, nd: string, r: nat)
    requires BuiltOn(texts, levels, kids, rank, bound, p, nar, made, base, texts0, levels0, kids0, low)
    requires nd in Keys(nar) && Ready(Get(nar, nd).value, Keys(made))
    requires rank[p] < r <= rank[p] + |nar| + 1 && (Get(nar, nd).value != [] ==> r <= low)
    ensures var ch := NodesOf(Get(nar, nd).value, made);
            |texts| == base + |made| && r < bound && p < |kids|
            && forall j :: 0 <= j < |ch| ==> ch[j] < |kids| && r < rank[ch[j]]
  {
    MadeRanked(texts, levels, kids, rank, p, nar, made, base, texts0, levels0, kids0, low, Get(nar, nd).value);
  }

  /**
   * One node of `add_nodes_narrower` on values: the new node goes at the end, with the nodes of its
   * children, and into the receiver's list when nobody lists it as a child.
   */
  lemma {:induction false} MakeStep(texts: seq<string>, levels: seq<nat>, kids: seq<seq<nat>>, rank: seq<nat>, bound: nat,
                 p: nat, nar: Dict<string, seq<string>>, made: Dict<string, nat>, base: nat,
                 texts0: seq<string>, levels0: seq<nat>, kids0: seq<seq<nat>>, low: int,
                 nd: string, level: nat, r: nat,
                 texts2: seq<string>, levels2: seq<nat>, kids2: seq<seq<nat>>, rank2: seq<nat>, made2: Dict<string, nat>, low2: int)
    requires BuiltOn(texts, levels, kids, rank, bound, p, nar, made, base, texts0, levels0, kids0, low)
    requires nd in Keys(nar) && nd !in Keys(made) && Ready(Get(nar, nd).value, Keys(made))
    requires GetLevel(nar, nd, levels[p], |nar| + 1) == Some(level)
    requires rank[p] < r <= rank[p] + |nar| + 1 && (Get(nar, nd).value != [] ==> r <= low)
    requires texts2 == texts + [NodeText(nd, " ")] && levels2 == levels + [level] && rank2 == rank + [r]
    requires made2 == made + [(nd, |texts|)] && low2 == if r <= low then r - 1 else low
    requires var k1 := kids + [NodesOf(Get(nar, nd).value, made)];
             kids2 == if nd in AllChildren(nar) then k1 else k1[p := k1[p] + [|texts|]]
    ensures BuiltOn(texts2, levels2, kids2, rank2, bound, p, nar, made2, base, texts0, levels0, kids0, low2)
  {
    var v := Get(nar, nd).value;
    var ch := NodesOf(v, made);
    MadeRanked(texts, levels, kids, rank, p, nar, made, base, texts0, levels0, kids0, low, v);
    assert forall j :: 0 <= j < |ch| ==> ch[j] < |kids| && r < rank[ch[j]];
    var n := |texts|;
    var k1 := kids + [ch];
    LeafKeepsValid(texts, levels, kids, rank, bound, NodeText(nd, " "), level, ch, r, bound);
    if nd !in AllChildren(nar) {
      AppendKeepsValid(texts2, levels2, k1, rank2, bound, p, n);
    }
    RankStep(rank, made, nd, r, low, rank2, made2);
    GrownStep(texts, levels, kids, p, nar, made, base, texts0, levels0, kids0, nd, level, texts2, levels2, kids2, made2);
  }

  /**
   * What `add_nodes_narrower` has built so far for the receiver `p` on top of the `base` nodes that
   * were there before (with texts, levels and children lists `texts0`, `levels0`, `kids0`): the
   * entry `made[i]` of the `nodes` dict is the new node `base + i`, with the key's text, the level
   * `get_level` gives it and, as children, the nodes of its children; the receiver's list is
   * extended by the nodes of the keys that are nobody's child; no other old node changed.
   */
  ghost predicate GrownOn(texts: seq<string>, levels: seq<nat>, kids: seq<seq<nat>>, p: nat,
                          nar: Dict<string, seq<string>>, made: Dict<string, nat>, base: nat,
                          texts0: seq<string>, levels0: seq<nat>, kids0: seq<seq<nat>>)
  {
    Shaped(texts, levels, kids, p, nar, made, base, texts0, levels0, kids0)
    && forall i :: 0 <= i < |made| ==> MadeAt(texts, levels, kids, p, nar, made, base, i)
  }

  /** The old nodes and the receiver's list, in `GrownOn`. */
  ghost predicate Shaped(texts: seq<string>, levels: seq<nat>, kids: seq<seq<nat>>, p: nat,
                         nar: Dict<string, seq<string>>, made: Dict<string, nat>, base: nat,
                         texts0: seq<string>, levels0: seq<nat>, kids0: seq<seq<nat>>)
  {
    p < base && |texts0| == base && |levels0| == base && |kids0| == base
    && |texts| == base + |made| && |levels| == |texts| && |kids| == |texts|
    && texts[..base] == texts0 && levels[..base] == levels0
    && FreshKeys(made)
    && (forall x :: 0 <= x < base && x != p ==> kids[x] == kids0[x])
    && kids[p] == kids0[p] + RootNodes(made, AllChildren(nar))
  }

  /** The node of the entry `made[i]`. */
  ghost predicate MadeAt(texts: seq<string>, levels: seq<nat>, kids: seq<seq<nat>>, p: nat,
                         nar: Dict<string, seq<string>>, made: Dict<string, nat>, base: nat, i: nat)
    requires p < |levels| && i < |made| && |texts| == |levels| == |kids| == base + |made|
  {
    made[i].1 == base + i && made[i].0 in Keys(nar)
    && texts[base + i] == NodeText(made[i].0, " ")
    && GetLevel(nar, made[i].0, levels[p], |nar| + 1) == Some(levels[base + i])
    && Ready(Get(nar, made[i].0).value, Keys(made))
    && kids[base + i] == NodesOf(Get(nar, made[i].0).value, made)
  }

  /** One more node keeps `GrownOn`. */
  lemma {:induction false} GrownStep(texts: seq<string>, levels: seq<nat>, kids: seq<seq<nat>>, p: nat,
                  nar: Dict<string, seq<string>>, made: Dict<string, nat>, base: nat,
                  texts0: seq<string>, levels0: seq<nat>, kids0: seq<seq<nat>>, nd: string, level: nat,
                  texts2: seq<string>, levels2: seq<nat>, kids2: seq<seq<nat>>, made2: Dict<string, nat>)
    requires GrownOn(texts, levels, kids, p, nar, made, base, texts0, levels0, kids0)
    requires nd in Keys(nar) && nd !in Keys(made) && Ready(Get(nar, nd).value, Keys(made))
    requires GetLevel(nar, nd, levels[p], |nar| + 1) == Some(level)
    requires texts2 == texts + [NodeText(nd, " ")] && levels2 == levels + [level]
    requires made2 == made + [(nd, base + |made|)]
    requires |kids2| == |kids| + 1 && kids2[|kids|] == NodesOf(Get(nar, nd).value, made)
    requires forall x :: 0 <= x < |kids| && x != p ==> kids2[x] == kids[x]
    requires kids2[p] == kids[p] + (if nd in AllChildren(nar) then [] else [base + |made|])
    ensures GrownOn(texts2, levels2, kids2, p, nar, made2, base, texts0, levels0, kids0)
  {
    assert forall x :: 0 <= x < |texts| ==> texts2[x] == texts[x] && levels2[x] == levels[x];
    assert Shaped(texts2, levels2, kids2, p, nar, made2, base, texts0, levels0, kids0) by {
      ShapedStep(texts, levels, kids, p, nar, made, base, texts0, levels0, kids0, nd, texts2, levels2, kids2, made2);
    }
    assert forall i :: 0 <= i < |made2| ==> MadeAt(texts2, levels2, kids2, p, nar, made2, base, i) by {
      assert levels2[p] == levels[p];
      MadeAllStep(texts, levels, kids, p, nar, made, base, nd, texts2, levels2, kids2);
    }
  }

  /**
   * The entries made so far name nodes of the forest, and the children of a ready entry have ranks
   * above `low`.
   */
  lemma {:induction false} MadeRanked(texts: seq<string>, levels: seq<nat>, kids: seq<seq<nat>>, rank: seq<nat>, p: nat,
                   nar: Dict<string, seq<string>>, made: Dict<string, nat>, base: nat,
                   texts0: seq<string>, levels0: seq<nat>, kids0: seq<seq<nat>>, low: int, v: seq<string>)
    requires GrownOn(texts, levels, kids, p, nar, made, base, texts0, levels0, kids0) && |rank| == |texts|
    requires forall i :: 0 <= i < |made| && made[i].1 < |rank| ==> low < rank[made[i].1]
    requires Ready(v, Keys(made))
    ensures forall i :: 0 <= i < |made| ==> made[i].1 < |texts|
    ensures forall j :: 0 <= j < |v| ==> NodesOf(v, made)[j] < |texts| && low < rank[NodesOf(v, made)[j]]
  {
    forall i | 0 <= i < |made| ensures made[i].1 < |texts| {
      assert MadeAt(texts, levels, kids, p, nar, made, base, i);
    }
    var children := NodesOf(v, made);
    forall j | 0 <= j < |v| ensures children[j] < |texts| && low < rank[children[j]] {
      var i := IndexOf(Keys(made), v[j]);
      assert Get(made, v[j]) == Some(made[i].1);
    }
  }

  /** A new node of rank `r` keeps every made node above the new lower bound. */
  lemma RankStep(rank: seq<nat>, made: Dict<string, nat>, nd: string, r: nat, low: int,
                 rank2: seq<nat>, made2: Dict<string, nat>)
    requires forall i :: 0 <= i < |made| ==> made[i].1 < |rank|
    requires forall i :: 0 <= i < |made| && made[i].1 < |rank| ==> low < rank[made[i].1]
    requires rank2 == rank + [r] && made2 == made + [(nd, |rank|)]
    ensures forall i :: 0 <= i < |made2| && made2[i].1 < |rank2| ==>
              (if r <= low then r - 1 else low) < rank2[made2[i].1]
  {
  }

  /** One more node keeps `Shaped`. */
  lemma {:induction false} ShapedStep(texts: seq<string>, levels: seq<nat>, kids: seq<seq<nat>>, p: nat,
                   nar: Dict<string, seq<string>>, made: Dict<string, nat>, base: nat,
                   texts0: seq<string>, levels0: seq<nat>, kids0: seq<seq<nat>>, nd: string,
                   texts2: seq<string>, levels2: seq<nat>, kids2: seq<seq<nat>>, made2: Dict<string, nat>)
    requires Shaped(texts, levels, kids, p, nar, made, base, texts0, levels0, kids0)
    requires nd !in Keys(made) && made2 == made + [(nd, base + |made|)]
    requires |texts2| == |levels2| == |kids2| == |texts| + 1
    requires forall x :: 0 <= x < |texts| ==> texts2[x] == texts[x] && levels2[x] == levels[x]
    requires forall x :: 0 <= x < |kids| && x != p ==> kids2[x] == kids[x]
    requires kids2[p] == kids[p] + (if nd in AllChildren(nar) then [] else [base + |made|])
    ensures Shaped(texts2, levels2, kids2, p, nar, made2, base, texts0, levels0, kids0)
  {
    var e: (string, nat) := (nd, base + |made|);
    assert FreshKeys(made2) by {
      FreshKeysAppend(made, nd, e.1);
    }
    assert texts2[..base] == texts0 && levels2[..base] == levels0 by {
      SamePrefix(texts2, texts, base);
      SamePrefix(levels2, levels, base);
    }
    assert kids2[p] == kids0[p] + RootNodes(made2, AllChildren(nar)) by {
      RootNodesAppend(made, e, AllChildren(nar));
      ConcatAssoc(kids0[p], RootNodes(made, AllChildren(nar)), if nd in AllChildren(nar) then [] else [e.1]);
    }
  }

  /** Sequences that agree below `n` have the same prefix of length `n`. */
  lemma SamePrefix<T>(a: seq<T>, b: seq<T>, n: nat)
    requires n <= |a| && n <= |b| && forall k :: 0 <= k < n ==> a[k] == b[k]
    ensures a[..n] == b[..n]
  {
  }

  lemma ConcatAssoc<T>(a: seq<T>, b: seq<T>, c: seq<T>)
    ensures (a + b) + c == a + (b + c)
  {
  }

  /** The loop of `add_children` on the fields of a forest, passed as values. */
  method AttachLoop(texts: seq<string>, levels: seq<nat>, kids: seq<seq<nat>>, ghost rank: seq<nat>, ghost bound: nat,
                    p: nat, ns: seq<nat>, lv: seq<nat>)
    returns (err: Option<TreeError>, ks: seq<seq<nat>>, ghost rk: seq<nat>, ghost bd: nat)
    requires ValidOn(texts, levels, kids, rank, bound) && p < |texts| && ns != [] && |lv| == |ns|
    requires forall k :: 0 <= k < |ns| ==> ns[k] < |texts| && ns[k] != p && kids[ns[k]] == []
    requires NoRepeats(ns)
    requires forall k :: 0 <= k < |ns| ==> lv[0] <= lv[k]
    ensures ValidOn(texts, levels, ks, rk, bd) && |ks| == |kids|
    ensures (err.None? <==> FirstJump(lv) == |ns|)
    ensures FirstJump(lv) < |ns| ==> err == Some(TooDeep(texts[ns[FirstJump(lv)]]))
    ensures forall x :: 0 <= x < |ks| ==> ks[x] == kids[x] + Attached(p, ns, lv, x, FirstJump(lv))
  {
    ghost var kids0 := kids;
    ks := kids;
    rk, bd := rank, bound;
    var chain: seq<nat> := [];
    var i := 0;
    err := None;
    while i < |ns|
      invariant i <= FirstJump(lv)
      invariant ValidOn(texts, levels, ks, rk, bd)
      invariant ChainAt(lv, ns, chain, i) && KidsAt(ks, kids0, p, ns, lv, i)
    {
      if i > 0 && lv[i] > lv[i - 1] + 1 {
        assert !StepAt(lv, i);
        assert FirstJump(lv) == i;
        err := Some(TooDeep(texts[ns[i]]));
        break;
      }
      ChainStep(lv, ns, chain, i);
      var d := lv[i] - lv[0];
      var parent := if d == 0 then p else chain[d - 1];
      var ks2 := ks[parent := ks[parent] + [ns[i]]];
      ghost var rk2 := Raised(rk, parent, ns[i]);
      ghost var bd2 := if rk2[ns[i]] < bd then bd else rk2[ns[i]] + 1;
      var chain2 := chain[..d] + [ns[i]];
      assert i + 1 <= FirstJump(lv) && ChainAt(lv, ns, chain2, i + 1) && KidsAt(ks2, kids0, p, ns, lv, i + 1)
             && ValidOn(texts, levels, ks2, rk2, bd2) by {
        AttachStep(p, ns, lv, chain, ks, kids0, i, d, parent);
        AttachKeepsValid(texts, levels, ks, rk, bd, parent, ns[i]);
      }
      ks, rk, bd, chain := ks2, rk2, bd2, chain2;
      i := i + 1;
    }
    KidsAtMeans(ks, kids0, p, ns, lv, i);
  }

  /** `chain[d]` is the last node before position `i` at the first node's level plus `d`. */
  ghost predicate ChainAt(lv: seq<nat>, ns: seq<nat>, chain: seq<nat>, i: nat)
    requires |lv| == |ns| && i <= |ns|
  {
    (i == 0 ==> chain == []) && (i > 0 ==> lv[0] <= lv[i - 1] && |chain| == lv[i - 1] - lv[0] + 1)
    && forall d :: 0 <= d < |chain| ==> 0 <= ChainPos(lv, d, i) && chain[d] == ns[ChainPos(lv, d, i)]
  }

  /** The last position before `i` at `d` levels below the first node. */
  function ChainPos(lv: seq<nat>, d: nat, i: nat): int
    requires 0 < |lv| && i <= |lv|
  {
    LastAt(lv, lv[0] + d, i)
  }

  /** The children lists are the old ones plus what the first `i` positions attached. */
  ghost predicate KidsAt(kids: seq<seq<nat>>, kids0: seq<seq<nat>>, p: nat, ns: seq<nat>, lv: seq<nat>, i: nat)
    requires |lv| == |ns| && i <= |ns|
  {
    |kids| == |kids0| && forall x :: 0 <= x < |kids| ==> KidAt(kids, kids0, p, ns, lv, i, x)
  }

  /** Node `x` has its old children and those the loop gave it before position `i`. */
  ghost predicate KidAt(kids: seq<seq<nat>>, kids0: seq<seq<nat>>, p: nat, ns: seq<nat>, lv: seq<nat>, i: nat, x: nat)
    requires |lv| == |ns| && i <= |ns| && x < |kids| == |kids0|
  {
    kids[x] == kids0[x] + Attached(p, ns, lv, x, i)
  }

  lemma KidsAtMeans(kids: seq<seq<nat>>, kids0: seq<seq<nat>>, p: nat, ns: seq<nat>, lv: seq<nat>, i: nat)
    requires |lv| == |ns| && i <= |ns| && KidsAt(kids, kids0, p, ns, lv, i)
    ensures forall x :: 0 <= x < |kids| ==> kids[x] == kids0[x] + Attached(p, ns, lv, x, i)
  {
    forall x | 0 <= x < |kids| ensures kids[x] == kids0[x] + Attached(p, ns, lv, x, i) {
      assert KidAt(kids, kids0, p, ns, lv, i, x);
    }
  }

  /** The chain gives the owner of position `i` and, cut to its level, the chain after it. */
  lemma ChainStep(lv: seq<nat>, ns: seq<nat>, chain: seq<nat>, i: nat)
    requires |lv| == |ns| && i < |ns| && ChainAt(lv, ns, chain, i) && lv[0] <= lv[i]
    requires i > 0 ==> lv[i] <= lv[i - 1] + 1
    ensures lv[i] - lv[0] <= |chain|
    ensures lv[i] == lv[0] ==> ParentAt(lv, i) == -1
    ensures lv[i] > lv[0] ==> ParentAt(lv, i) >= 0 && chain[lv[i] - lv[0] - 1] == ns[ParentAt(lv, i)]
    ensures ChainAt(lv, ns, chain[..lv[i] - lv[0]] + [ns[i]], i + 1)
  {
    var top := lv[i] - lv[0];
    if top > 0 {
      assert 0 <= ChainPos(lv, top - 1, i) && chain[top - 1] == ns[ChainPos(lv, top - 1, i)];
    }
    var next := chain[..top] + [ns[i]];
    var j := i + 1;
    forall e: int | 0 <= e < |next|
      ensures 0 <= ChainPos(lv, e, j) && next[e] == ns[ChainPos(lv, e, j)]
    {
      if e < top {
        assert 0 <= ChainPos(lv, e, i) && chain[e] == ns[ChainPos(lv, e, i)];
        assert ChainPos(lv, e, j) == ChainPos(lv, e, i);
      } else {
        assert ChainPos(lv, e, j) == i;
      }
    }
    assert lv[j - 1] == lv[i];
    assert ChainAt(lv, ns, next, j);
  }

  /**
   * One turn of the attach loop: the parent it picks for the node at position `i` is the node's
   * owner, and the turn leaves the chain, the kids and the jump bound as the loop expects.
   */
  lemma AttachStep(p: nat, ns: seq<nat>, lv: seq<nat>, chain: seq<nat>, kids: seq<seq<nat>>, kids0: seq<seq<nat>>,
                   i: nat, d: nat, parent: nat)
    requires |lv| == |ns| && i < |ns| && i <= FirstJump(lv) && (i > 0 ==> lv[i] <= lv[i - 1] + 1)
    requires forall k :: 0 <= k < |ns| ==> ns[k] < |kids0| && ns[k] != p && kids0[ns[k]] == [] && lv[0] <= lv[k]
    requires NoRepeats(ns)
    requires p < |kids0| && ChainAt(lv, ns, chain, i) && KidsAt(kids, kids0, p, ns, lv, i)
    requires d == lv[i] - lv[0] && d <= |chain| && parent == (if d == 0 then p else chain[d - 1])
    ensures parent < |kids| && parent != ns[i] && kids[ns[i]] == [] && i + 1 <= FirstJump(lv)
    ensures ChainAt(lv, ns, chain[..d] + [ns[i]], i + 1)
    ensures KidsAt(kids[parent := kids[parent] + [ns[i]]], kids0, p, ns, lv, i + 1)
  {
    ChainStep(lv, ns, chain, i);
    assert i + 1 <= FirstJump(lv) by {
      if i > 0 {
        assert StepAt(lv, i);
      }
    }
    assert parent == Owner(p, ns, lv, i) by {
      if d == 0 {
        assert ParentAt(lv, i) == -1;
      } else {
        assert ParentAt(lv, i) >= 0 && chain[d - 1] == ns[ParentAt(lv, i)];
      }
    }
    assert parent < |kids| && parent != ns[i] && kids[ns[i]] == [] by {
      DistinctPairs(ns);
      assert p !in ns;
      NothingAttachedYet(p, ns, lv, i, i);
      assert KidAt(kids, kids0, p, ns, lv, i, ns[i]);
    }
    KidsStep(kids, kids0, p, ns, lv, i, parent);
  }

  /** Appending position `i` to its owner's list extends the attached lists by one position. */
  lemma KidsStep(kids: seq<seq<nat>>, kids0: seq<seq<nat>>, p: nat, ns: seq<nat>, lv: seq<nat>, i: nat, parent: nat)
    requires |lv| == |ns| && i < |ns| && KidsAt(kids, kids0, p, ns, lv, i)
    requires parent == Owner(p, ns, lv, i) && parent < |kids|
    ensures KidsAt(kids[parent := kids[parent] + [ns[i]]], kids0, p, ns, lv, i + 1)
  {
    var kids2 := kids[parent := kids[parent] + [ns[i]]];
    var j := i + 1;
    forall x | 0 <= x < |kids2| ensures KidAt(kids2, kids0, p, ns, lv, j, x) {
      assert KidAt(kids, kids0, p, ns, lv, i, x);
    }
  }

  /** The validation loop stops at the first position that fails. */
  lemma {:induction false} BelowFromAt(selfLevel: nat, lv: seq<nat>, i: nat, j: nat)
    requires lv != [] && i <= j <= |lv|
    requires forall k :: 0 <= k < j ==> selfLevel <= lv[k] && lv[0] <= lv[k]
    requires j < |lv| ==> lv[j] < selfLevel || lv[j] < lv[0]
    ensures BelowFrom(selfLevel, lv, i) == j
    decreases j - i
  {
    if i < j {
      BelowFromAt(selfLevel, lv, i + 1, j);
    }
  }

  // ---------------------------------------------------------------------------------------------
  // Helpers of add_nodes_narrower

  /** Every child already has an entry in `nodes`: `all_children_defined`. */
  predicate Ready(v: seq<string>, keys: seq<string>) {
    forall c :: c in v ==> c in keys
  }

  /** `[nodes[c] for c in v]`. */
  function NodesOf(v: seq<string>, made: Dict<string, nat>): (r: seq<nat>)
    requires Ready(v, Keys(made))
    ensures |r| == |v| && forall j :: 0 <= j < |v| ==> Get(made, v[j]) == Some(r[j])
  {
    seq(|v|, j requires 0 <= j < |v| => Get(made, v[j]).value)
  }


  /** Every entry stays what it was when a node is added, and the new one is right. */
  lemma {:induction false} MadeAllStep(texts: seq<string>, levels: seq<nat>, kids: seq<seq<nat>>, p: nat,
                    nar: Dict<string, seq<string>>, made: Dict<string, nat>, base: nat, nd: string,
                    texts2: seq<string>, levels2: seq<nat>, kids2: seq<seq<nat>>)
    requires p < base && |texts| == |levels| == |kids| == base + |made|
    requires forall i :: 0 <= i < |made| ==> MadeAt(texts, levels, kids, p, nar, made, base, i)
    requires FreshKeys(made) && nd !in Keys(made) && nd in Keys(nar) && Ready(Get(nar, nd).value, Keys(made))
    requires |texts2| == |levels2| == |kids2| == |texts| + 1
    requires forall x :: 0 <= x < |texts| ==> texts2[x] == texts[x] && levels2[x] == levels[x]
    requires forall x :: base <= x < |texts| ==> kids2[x] == kids[x]
    requires texts2[|texts|] == NodeText(nd, " ")
    requires GetLevel(nar, nd, levels2[p], |nar| + 1) == Some(levels2[|texts|])
    requires kids2[|texts|] == NodesOf(Get(nar, nd).value, made)
    ensures forall i :: 0 <= i < |made| + 1 ==> MadeAt(texts2, levels2, kids2, p, nar, made + [(nd, |texts|)], base, i)
  {
    var n := |texts|;
    forall i | 0 <= i < |made| + 1
      ensures MadeAt(texts2, levels2, kids2, p, nar, made + [(nd, n)], base, i)
    {
      if i < |made| {
        assert MadeAt(texts, levels, kids, p, nar, made, base, i);
        MadeAtKept(texts, levels, kids, p, nar, made, base, i, texts2, levels2, kids2, nd, n);
      } else {
        MadeAtNew(texts2, levels2, kids2, p, nar, made, base, nd, n);
      }
    }
  }

  /** An entry stays what it was when a node is added after it. */
  lemma {:induction false} MadeAtKept(texts: seq<string>, levels: seq<nat>, kids: seq<seq<nat>>, p: nat,
                   nar: Dict<string, seq<string>>, made: Dict<string, nat>, base: nat, i: nat,
                   texts2: seq<string>, levels2: seq<nat>, kids2: seq<seq<nat>>, nd: string, n: nat)
    requires p < |levels| && i < |made| && |texts| == |levels| == |kids| == base + |made|
    requires MadeAt(texts, levels, kids, p, nar, made, base, i)
    requires FreshKeys(made) && nd !in Keys(made)
    requires |texts2| == |levels2| == |kids2| == |texts| + 1
    requires texts2[base + i] == texts[base + i] && levels2[base + i] == levels[base + i]
    requires levels2[p] == levels[p] && kids2[base + i] == kids[base + i]
    ensures MadeAt(texts2, levels2, kids2, p, nar, made + [(nd, n)], base, i)
  {
    NodesOfGrow(Get(nar, made[i].0).value, made, nd, n);
  }

  /** The entry of a new node. */
  lemma {:induction false} MadeAtNew(texts2: seq<string>, levels2: seq<nat>, kids2: seq<seq<nat>>, p: nat,
                  nar: Dict<string, seq<string>>, made: Dict<string, nat>, base: nat, nd: string, n: nat)
    requires FreshKeys(made) && nd !in Keys(made) && nd in Keys(nar) && Ready(Get(nar, nd).value, Keys(made))
    requires p < |levels2| && n == base + |made| && |texts2| == |levels2| == |kids2| == n + 1
    requires texts2[n] == NodeText(nd, " ") && GetLevel(nar, nd, levels2[p], |nar| + 1) == Some(levels2[n])
    requires kids2[n] == NodesOf(Get(nar, nd).value, made)
    ensures MadeAt(texts2, levels2, kids2, p, nar, made + [(nd, n)], base, |made|)
  {
    NodesOfGrow(Get(nar, nd).value, made, nd, n);
    FreshKeysDistinct(made);
    AppendNew(made, nd, n);
  }

  /** A new entry in `nodes` does not change the nodes of children that were there. */
  lemma {:induction false} NodesOfGrow(v: seq<string>, made: Dict<string, nat>, k: string, n: nat)
    requires FreshKeys(made) && k !in Keys(made) && Ready(v, Keys(made))
    ensures Ready(v, Keys(made + [(k, n)])) && NodesOf(v, made + [(k, n)]) == NodesOf(v, made)
  {
    var made2 := made + [(k, n)];
    FreshKeysDistinct(made);
    AppendNew(made, k, n);
    forall j | 0 <= j < |v| ensures Get(made2, v[j]) == Get(made, v[j]) {
      assert v[j] in Keys(made);
    }
  }

  /** The nodes of the entries whose key is nobody's child, in the order of `nodes`. */
  function RootNodes(made: Dict<string, nat>, all: seq<string>): (r: seq<nat>)
    ensures forall x :: x in r ==> exists i :: 0 <= i < |made| && made[i].1 == x && made[i].0 !in all
    ensures forall i :: 0 <= i < |made| && made[i].0 !in all ==> made[i].1 in r
  {
    if made == [] then []
    else
      var init := made[..|made| - 1];
      assert forall i :: 0 <= i < |init| ==> init[i] == made[i];
      RootNodes(init, all) + (if made[|made| - 1].0 in all then [] else [made[|made| - 1].1])
  }

  lemma RootNodesAppend(made: Dict<string, nat>, e: (string, nat), all: seq<string>)
    ensures RootNodes(made + [e], all) == RootNodes(made, all) + (if e.0 in all then [] else [e.1])
  {
    assert (made + [e])[..|made|] == made;
  }
}
