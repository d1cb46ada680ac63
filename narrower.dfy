/**
 * The shape of a narrower dict (concept key to the keys of its narrower concepts) as a graph: how
 * deep its chains of children go, and the sets of keys that feed each other, which are what makes
 * `add_nodes_narrower` loop or recurse without end.
 */
module Narrower {
  import opened Wrappers
  import opened Dicts

  /** The children the dict lists for `k`; none for a key it does not have. */
  function ChildrenIn(d: Dict<string, seq<string>>, k: string): (r: seq<string>)
    ensures r != [] ==> k in Keys(d)
  {
    match Get(d, k)
    case None => []
    case Some(v) => v
  }

  /** Every chain of children that starts at `k` has fewer than `n` names. */
  predicate Bounded(d: Dict<string, seq<string>>, k: string, n: nat)
    decreases n
  {
    n > 0 && forall c :: c in ChildrenIn(d, k) ==> Bounded(d, c, n - 1)
  }

  /** The chains of children from every key have fewer than `n` names. */
  predicate BoundedAll(d: Dict<string, seq<string>>, n: nat) {
    forall k :: k in Keys(d) ==> Bounded(d, k, n)
  }

  /** The chains of children have a common bound: the dict has no cycle. */
  ghost predicate WellFounded(d: Dict<string, seq<string>>) {
    exists n: nat :: BoundedAll(d, n)
  }

  /** A non-empty list of names each of which lists a child in the list: there is a cycle below them. */
  predicate SelfFed(d: Dict<string, seq<string>>, ks: seq<string>) {
    ks != [] && forall k {:trigger ChildrenIn(d, k)} :: k in ks ==> exists c :: c in ks && c in ChildrenIn(d, k)
  }

  /** No name of a self-fed list has bounded chains. */
  lemma {:induction false} SelfFedUnbounded(d: Dict<string, seq<string>>, ks: seq<string>, k: string, n: nat)
    requires SelfFed(d, ks) && k in ks
    ensures !Bounded(d, k, n)
    decreases n
  {
    if n > 0 {
      assert exists c :: c in ks && c in ChildrenIn(d, k);
      var c :| c in ks && c in ChildrenIn(d, k);
      SelfFedUnbounded(d, ks, c, n - 1);
    }
  }

  /** A self-fed list shows a cycle: the dict is not well founded. */
  lemma SelfFedNotWellFounded(d: Dict<string, seq<string>>, ks: seq<string>)
    requires SelfFed(d, ks)
    ensures !WellFounded(d)
  {
    if WellFounded(d) {
      var n: nat :| BoundedAll(d, n);
      var k := ks[0];
      assert k in ks && exists c :: c in ks && c in ChildrenIn(d, k);
      var c :| c in ks && c in ChildrenIn(d, k);
      SelfFedUnbounded(d, ks, k, n);
      assert false;
    }
  }

  /** A dict whose entries are all entries of `d` has no more children per key than `d`. */
  lemma {:induction false} BoundedInSubDict(d: Dict<string, seq<string>>, sub: Dict<string, seq<string>>, k: string, n: nat)
    requires DistinctKeys(d) && DistinctKeys(sub) && forall e :: e in sub ==> e in d
    requires Bounded(d, k, n)
    ensures Bounded(sub, k, n)
    decreases n
  {
    match Get(sub, k)
    case None =>
    case Some(v) =>
      GetIn(sub, k, v);
      GetIn(d, k, v);
      assert ChildrenIn(d, k) == v && n > 0;
      forall c | c in v ensures Bounded(sub, c, n - 1) {
        assert Bounded(d, c, n - 1);
        BoundedInSubDict(d, sub, c, n - 1);
      }
  }

  /** Taking out entries keeps a dict well founded. */
  lemma WellFoundedSubDict(d: Dict<string, seq<string>>, sub: Dict<string, seq<string>>)
    requires DistinctKeys(d) && DistinctKeys(sub) && forall e :: e in sub ==> e in d
    requires WellFounded(d)
    ensures WellFounded(sub)
  {
    var n: nat :| BoundedAll(d, n);
    forall k | k in Keys(sub) ensures Bounded(sub, k, n) {
      var i :| 0 <= i < |sub| && Keys(sub)[i] == k;
      assert sub[i] in d;
      var j :| 0 <= j < |d| && d[j] == sub[i];
      assert Keys(d)[j] == k;
      BoundedInSubDict(d, sub, k, n);
    }
    assert BoundedAll(sub, n);
  }
}
