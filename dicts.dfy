/** Python's insertion-ordered `dict`, as a sequence of key/value pairs with distinct keys. */
module Dicts {
  import opened Wrappers

  type Dict<K, V> = seq<(K, V)>

  /** The keys in insertion order, as `list(d)`. */
  function Keys<K, V>(d: Dict<K, V>): (r: seq<K>)
    ensures |r| == |d| && forall i :: 0 <= i < |d| ==> r[i] == d[i].0
  {
    seq(|d|, i requires 0 <= i < |d| => d[i].0)
  }

  predicate DistinctKeys<K(==), V>(d: Dict<K, V>) {
    forall i, j :: 0 <= i < j < |d| ==> d[i].0 != d[j].0
  }

  /** `DistinctKeys`, entry by entry from the end: each key is new to the entries before it. */
  predicate FreshKeys<K(==), V>(d: Dict<K, V>) {
    d == [] || (d[|d| - 1].0 !in Keys(d[..|d| - 1]) && FreshKeys(d[..|d| - 1]))
  }

  lemma {:induction false} FreshKeysDistinct<K, V>(d: Dict<K, V>)
    requires FreshKeys(d)
    ensures DistinctKeys(d)
    decreases |d|
  {
    if d != [] {
      var init := d[..|d| - 1];
      FreshKeysDistinct(init);
      forall i, j | 0 <= i < j < |d| ensures d[i].0 != d[j].0 {
        assert d[i] == init[i];
        if j < |d| - 1 {
          assert d[j] == init[j];
        } else {
          assert Keys(init)[i] == d[i].0;
        }
      }
    }
  }

  lemma {:induction false} DistinctKeysFresh<K, V>(d: Dict<K, V>)
    requires DistinctKeys(d)
    ensures FreshKeys(d)
    decreases |d|
  {
    if d != [] {
      var init := d[..|d| - 1];
      assert forall i :: 0 <= i < |init| ==> init[i] == d[i];
      DistinctKeysFresh(init);
    }
  }

  /** A new key keeps the keys fresh. */
  lemma FreshKeysAppend<K, V>(d: Dict<K, V>, k: K, v: V)
    requires FreshKeys(d) && k !in Keys(d)
    ensures FreshKeys(d + [(k, v)])
  {
    assert (d + [(k, v)])[..|d|] == d;
  }

  /** The first position of `k` in `ks`. */
  function IndexOf<K(==)>(ks: seq<K>, k: K): (i: nat)
    requires k in ks
    ensures i < |ks| && ks[i] == k && forall j :: 0 <= j < i ==> ks[j] != k
  {
    if ks[0] == k then 0 else 1 + IndexOf(ks[1..], k)
  }

  /** Positions in a concatenation: the first part is searched first. */
  lemma {:induction false} IndexOfAppend(a: seq<string>, b: seq<string>, k: string)
    requires k in a + b
    ensures k in a ==> IndexOf(a + b, k) == IndexOf(a, k)
    ensures k !in a ==> IndexOf(a + b, k) == |a| + IndexOf(b, k)
    decreases |a|
  {
    if a != [] {
      assert (a + b)[1..] == a[1..] + b;
      if a[0] != k {
        IndexOfAppend(a[1..], b, k);
      }
    } else {
      assert a + b == b;
    }
  }

  /** `d.get(k)`. */
  function Get<K(==), V>(d: Dict<K, V>, k: K): (r: Option<V>)
    ensures r.None? <==> k !in Keys(d)
    ensures r.Some? ==> exists i :: 0 <= i < |d| && d[i] == (k, r.value)
  {
    if k in Keys(d) then Some(d[IndexOf(Keys(d), k)].1) else None
  }

  /** `d[k] = v`: a new key goes last, an existing key keeps its place and takes the new value. */
  function Put<K(==,!new), V>(d: Dict<K, V>, k: K, v: V): (r: Dict<K, V>)
    requires DistinctKeys(d)
    ensures DistinctKeys(r)
    ensures Get(r, k) == Some(v)
    ensures forall k' :: k' != k ==> Get(r, k') == Get(d, k')
    ensures k in Keys(d) ==> Keys(r) == Keys(d)
    ensures k !in Keys(d) ==> Keys(r) == Keys(d) + [k] && r == d + [(k, v)]
    ensures forall i :: 0 <= i < |r| ==> r[i] in d || r[i] == (k, v)
  {
    if k in Keys(d) then
      var i := IndexOf(Keys(d), k);
      var r := d[i := (k, v)];
      assert Keys(r) == Keys(d);
      assert forall k' :: k' != k && k' in Keys(d) ==> IndexOf(Keys(r), k') == IndexOf(Keys(d), k');
      r
    else
      var r := d + [(k, v)];
      assert Keys(r) == Keys(d) + [k];
      assert forall k' :: k' in Keys(d) ==> IndexOf(Keys(r), k') == IndexOf(Keys(d), k');
      assert IndexOf(Keys(r), k) == |d|;
      r
  }

  /** `d[k] = v` on a new key appends the entry and leaves every old lookup as it was. */
  lemma AppendNew<V>(d: Dict<string, V>, k: string, v: V)
    requires DistinctKeys(d) && k !in Keys(d)
    ensures Put(d, k, v) == d + [(k, v)]
    ensures DistinctKeys(d + [(k, v)]) && Keys(d + [(k, v)]) == Keys(d) + [k]
    ensures Get(d + [(k, v)], k) == Some(v)
    ensures forall k' :: k' in Keys(d) ==> Get(d + [(k, v)], k') == Get(d, k')
  {
    var r := Put(d, k, v);
    assert forall k' :: k' in Keys(d) ==> k' != k;
  }

  /** With distinct keys, the entry at a position is what `d[k]` finds for its key. */
  lemma GetAt<V>(d: Dict<string, V>, i: nat)
    requires DistinctKeys(d) && i < |d|
    ensures Get(d, d[i].0) == Some(d[i].1)
  {
    assert Keys(d)[i] == d[i].0;
    var j := IndexOf(Keys(d), d[i].0);
    assert d[j].0 == d[i].0;
  }

  /** `chain.from_iterable(d.values())`. */
  function AllChildren(d: Dict<string, seq<string>>): seq<string> {
    if d == [] then [] else AllChildren(d[..|d| - 1]) + d[|d| - 1].1
  }

  /** A name is among all children exactly when some entry lists it. */
  lemma {:induction false} AllChildrenHas(d: Dict<string, seq<string>>)
    ensures forall c :: c in AllChildren(d) <==> exists i :: 0 <= i < |d| && c in d[i].1
  {
    if d != [] {
      var init := d[..|d| - 1];
      AllChildrenHas(init);
      assert forall i :: 0 <= i < |init| ==> init[i] == d[i];
    }
  }

  /** Every child named in the dictionary is one of its keys. */
  predicate AllDefined(d: Dict<string, seq<string>>) {
    forall c :: c in AllChildren(d) ==> c in Keys(d)
  }

  /** The loop over all children: the first one that is not a key. */
  method FirstUndefinedChild(d: Dict<string, seq<string>>) returns (r: Option<string>)
    ensures r.None? <==> AllDefined(d)
    ensures r.Some? ==> exists i :: 0 <= i < |AllChildren(d)| && AllChildren(d)[i] == r.value
                                    && r.value !in Keys(d)
                                    && forall j :: 0 <= j < i ==> AllChildren(d)[j] in Keys(d)
  {
    var all := AllChildren(d);
    var keys := Keys(d);
    var i := 0;
    while i < |all|
      invariant i <= |all| && forall j :: 0 <= j < i ==> all[j] in keys
    {
      if all[i] !in keys {
        return Some(all[i]);
      }
      i := i + 1;
    }
    return None;
  }

  /** With distinct keys, `d[k]` is `v` exactly when `(k, v)` is an entry. */
  lemma {:induction false} GetIn<V>(d: Dict<string, V>, k: string, v: V)
    requires DistinctKeys(d)
    ensures Get(d, k) == Some(v) <==> (k, v) in d
  {
    if (k, v) in d {
      var i :| 0 <= i < |d| && d[i] == (k, v);
      GetAt(d, i);
    }
  }

  /** `d[k] = v` for each entry in turn, as a loop of assignments into an `out` dict does. */
  function PutAll<V>(d: Dict<string, V>, es: seq<(string, V)>): (r: Dict<string, V>)
    requires DistinctKeys(d)
    ensures DistinctKeys(r)
    decreases |es|
  {
    if es == [] then d else PutAll(Put(d, es[0].0, es[0].1), es[1..])
  }

  lemma {:induction false} PutAllAppend<V>(d: Dict<string, V>, a: seq<(string, V)>, b: seq<(string, V)>)
    requires DistinctKeys(d)
    ensures PutAll(d, a + b) == PutAll(PutAll(d, a), b)
    decreases |a|
  {
    if a == [] {
      assert a + b == b;
    } else {
      var d1 := Put(d, a[0].0, a[0].1);
      assert (a + b)[0] == a[0] && (a + b)[1..] == a[1..] + b;
      assert PutAll(d, a + b) == PutAll(d1, a[1..] + b);
      assert PutAll(d, a) == PutAll(d1, a[1..]);
      PutAllAppend(d1, a[1..], b);
    }
  }

  /** The keys of a dictionary are those of all but its last entry, then the last key. */
  lemma {:induction false} KeysSnoc<K, V>(d: Dict<K, V>)
    requires d != []
    ensures Keys(d) == Keys(d[..|d| - 1]) + [d[|d| - 1].0]
  {
  }

  /** The position of the last entry with key `k`: the one a later assignment leaves in place. */
  function LastIndex<V>(es: seq<(string, V)>, k: string): (i: nat)
    requires k in Keys(es)
    ensures i < |es| && es[i].0 == k && forall j :: i < j < |es| ==> es[j].0 != k
    decreases |es|
  {
    var n := |es| - 1;
    if es[n].0 == k then n
    else
      KeysSnoc(es);
      LastIndex(es[..n], k)
  }

  /** The first assignment of a run is one `Put` before the others. */
  lemma {:induction false} PutAllCons<V>(d: Dict<string, V>, e: (string, V), es: seq<(string, V)>)
    requires DistinctKeys(d)
    ensures PutAll(d, [e] + es) == PutAll(Put(d, e.0, e.1), es)
    ensures PutAll(d, [e]) == Put(d, e.0, e.1)
  {
    assert ([e] + es)[0] == e && ([e] + es)[1..] == es;
    assert [e][1..] == [];
  }

  /** The last assignment of a run is one `Put` after the others. */
  lemma {:induction false} PutAllLast<V>(d: Dict<string, V>, es: seq<(string, V)>)
    requires DistinctKeys(d) && es != []
    ensures var n := |es| - 1; PutAll(d, es) == Put(PutAll(d, es[..n]), es[n].0, es[n].1)
  {
    var n := |es| - 1;
    assert es == es[..n] + [es[n]];
    PutAllAppend(d, es[..n], [es[n]]);
    assert [es[n]][1..] == [];
  }

  /** After the assignments, a key of one of them has the last value given; other keys are unchanged. */
  lemma {:induction false} PutAllGet<V>(d: Dict<string, V>, es: seq<(string, V)>, k: string)
    requires DistinctKeys(d)
    ensures k in Keys(es) ==> Get(PutAll(d, es), k) == Some(es[LastIndex(es, k)].1)
    ensures k !in Keys(es) ==> Get(PutAll(d, es), k) == Get(d, k)
    decreases |es|
  {
    if es != [] {
      var n := |es| - 1;
      var init := es[..n];
      var p := PutAll(d, init);
      assert PutAll(d, es) == Put(p, es[n].0, es[n].1) by {
        PutAllLast(d, es);
      }
      KeysSnoc(es);
      if es[n].0 != k {
        PutAllGet(d, init, k);
        assert Get(PutAll(d, es), k) == Get(p, k);
        if k in Keys(es) {
          LastIndexInit(es, k);
        }
      }
    }
  }

  /** When the last entry has another key, the last entry of `k` lies in the entries before it. */
  lemma LastIndexInit<V>(es: seq<(string, V)>, k: string)
    requires k in Keys(es) && es[|es| - 1].0 != k
    ensures k in Keys(es[..|es| - 1])
    ensures es[LastIndex(es, k)] == es[..|es| - 1][LastIndex(es[..|es| - 1], k)]
  {
    KeysSnoc(es);
    var init := es[..|es| - 1];
    assert LastIndex(es, k) == LastIndex(init, k);
  }

  /** The assignments keep the old keys in front, in their order, and add the new keys after them. */
  lemma {:induction false} PutAllKeys<V>(d: Dict<string, V>, es: seq<(string, V)>)
    requires DistinctKeys(d)
    ensures |d| <= |PutAll(d, es)| && Keys(PutAll(d, es))[..|d|] == Keys(d)
    ensures forall k :: k in Keys(PutAll(d, es)) <==> k in Keys(d) || k in Keys(es)
    decreases |es|
  {
    if es != [] {
      var d1 := Put(d, es[0].0, es[0].1);
      PutAllKeys(d1, es[1..]);
      assert Keys(d1)[..|d|] == Keys(d);
      assert Keys(PutAll(d, es))[..|d|] == Keys(PutAll(d, es))[..|d1|][..|d|];
    }
    forall k ensures k in Keys(PutAll(d, es)) <==> k in Keys(d) || k in Keys(es) {
      PutAllGet(d, es, k);
    }
  }

  /** `del d[k]` on a key that is there: its entry goes, the others keep their order. */
  function Remove<V>(d: Dict<string, V>, k: string): (r: Dict<string, V>)
    requires DistinctKeys(d) && k in Keys(d)
    ensures |r| == |d| - 1 && DistinctKeys(r) && k !in Keys(r)
    ensures forall j :: 0 <= j < |r| ==> r[j] in d
  {
    var i := IndexOf(Keys(d), k);
    var r := d[..i] + d[i + 1..];
    assert forall j :: 0 <= j < |r| ==> r[j] == d[if j < i then j else j + 1];
    r
  }

  /** `del d[k]` keeps every entry of another key. */
  lemma RemoveKeeps<V>(d: Dict<string, V>, k: string)
    requires DistinctKeys(d) && k in Keys(d)
    ensures forall j :: 0 <= j < |d| && d[j].0 != k ==> d[j] in Remove(d, k)
  {
    var i := IndexOf(Keys(d), k);
    var r := Remove(d, k);
    assert r == d[..i] + d[i + 1..];
    forall j | 0 <= j < |d| && d[j].0 != k ensures d[j] in r {
      if j < i {
        assert r[j] == d[j];
      } else {
        assert r[j - 1] == d[j];
      }
    }
  }

  /** After `del d[k]`, every other key has the value it had. */
  lemma {:induction false} RemoveGet<V>(d: Dict<string, V>, k: string, k': string)
    requires DistinctKeys(d) && k in Keys(d) && k' != k
    ensures Get(Remove(d, k), k') == Get(d, k')
  {
    var r := Remove(d, k);
    var i := IndexOf(Keys(d), k);
    var g := Get(d, k');
    if g.Some? {
      GetIn(d, k', g.value);
      var q :| 0 <= q < |d| && d[q] == (k', g.value);
      assert q != i;
      assert r[if q < i then q else q - 1] == d[q];
      GetIn(r, k', g.value);
    } else if Get(r, k').Some? {
      GetIn(r, k', Get(r, k').value);
    }
  }
}
