/// Dictionaries that group values by key, as the modelled code builds them:
/// an entry is created the first time a key is met, later values are
/// appended to it (to a List, or to a HashSet, which skips values already
/// present), and the entries are enumerated in the order their keys were
/// first met.
module Grouping {

  datatype Entry<K, V> = Entry(key: K, values: seq<V>)

  /// The keys in enumeration order.
  function Keys<K, V>(g: seq<Entry<K, V>>): (ks: seq<K>)
    ensures |ks| == |g| && forall i :: 0 <= i < |g| ==> ks[i] == g[i].key
  {
    if g == [] then [] else [g[0].key] + Keys(g[1..])
  }

  /// No key has two entries.
  predicate DistinctKeys<K(==), V>(g: seq<Entry<K, V>>) {
    forall i, j :: 0 <= i < j < |g| ==> g[i].key != g[j].key
  }

  /// No entry is empty.
  predicate NonEmptyValues<K, V>(g: seq<Entry<K, V>>) {
    forall i :: 0 <= i < |g| ==> g[i].values != []
  }

  /// The values stored under a key; empty when the key has no entry.
  function Lookup<K(==), V>(g: seq<Entry<K, V>>, k: K): seq<V> {
    if g == [] then [] else if g[0].key == k then g[0].values else Lookup(g[1..], k)
  }

  /// Appends a value to a List (distinct false) or adds it to a HashSet (distinct true).
  function Append<V(==)>(s: seq<V>, v: V, distinct: bool): seq<V> {
    if distinct && v in s then s else s + [v]
  }

  /// One step of the grouping loop: find or create the key's entry, then
  /// store the value in it.
  function Add<K(==), V(==)>(g: seq<Entry<K, V>>, k: K, v: V, distinct: bool): seq<Entry<K, V>> {
    if g == [] then [Entry(k, [v])]
    else if g[0].key == k then [Entry(k, Append(g[0].values, v, distinct))] + g[1..]
    else [g[0]] + Add(g[1..], k, v, distinct)
  }

  /// The grouping of a sequence of key/value pairs, pair by pair.
  function GroupBy<K(==), V(==)>(pairs: seq<(K, V)>, distinct: bool): seq<Entry<K, V>> {
    if pairs == [] then []
    else Add(GroupBy(pairs[..|pairs| - 1], distinct), pairs[|pairs| - 1].0, pairs[|pairs| - 1].1, distinct)
  }

  /// The values paired with a key, in order.
  function Select<K(==), V>(pairs: seq<(K, V)>, k: K): seq<V> {
    if pairs == [] then []
    else Select(pairs[..|pairs| - 1], k) + (if pairs[|pairs| - 1].0 == k then [pairs[|pairs| - 1].1] else [])
  }

  /// The first occurrence of each element, in order.
  function Distinct<T(==)>(s: seq<T>): seq<T> {
    if s == [] then [] else Append(Distinct(s[..|s| - 1]), s[|s| - 1], true)
  }

  /// The keys of the pairs, in order.
  function PairKeys<K, V>(pairs: seq<(K, V)>): (ks: seq<K>)
    ensures |ks| == |pairs| && forall i :: 0 <= i < |pairs| ==> ks[i] == pairs[i].0
  {
    if pairs == [] then [] else PairKeys(pairs[..|pairs| - 1]) + [pairs[|pairs| - 1].0]
  }

  lemma {:induction false} DistinctElements<T>(s: seq<T>)
    ensures forall x :: x in Distinct(s) <==> x in s
    ensures forall i, j :: 0 <= i < j < |Distinct(s)| ==> Distinct(s)[i] != Distinct(s)[j]
  {
    if s != [] {
      DistinctElements(s[..|s| - 1]);
      assert s == s[..|s| - 1] + [s[|s| - 1]];
    }
  }

  lemma {:induction false} AddShape<K, V>(g: seq<Entry<K, V>>, k: K, v: V, distinct: bool)
    ensures Keys(Add(g, k, v, distinct)) == if k in Keys(g) then Keys(g) else Keys(g) + [k]
    ensures forall k' :: Lookup(Add(g, k, v, distinct), k') ==
                         (if k' == k then Append(Lookup(g, k), v, distinct) else Lookup(g, k'))
    ensures NonEmptyValues(g) ==> NonEmptyValues(Add(g, k, v, distinct))
  {
    if g != [] {
      AddShape(g[1..], k, v, distinct);
      if g[0].key != k {
        assert Add(g, k, v, distinct)[1..] == Add(g[1..], k, v, distinct);
      } else {
        assert Add(g, k, v, distinct)[1..] == g[1..];
      }
      assert Keys(g) == [g[0].key] + Keys(g[1..]);
    }
  }

  lemma {:induction false} LookupMissing<K, V>(g: seq<Entry<K, V>>, k: K)
    requires k !in Keys(g)
    ensures Lookup(g, k) == []
  {
    if g != [] {
      assert Keys(g) == [g[0].key] + Keys(g[1..]);
      LookupMissing(g[1..], k);
    }
  }

  /// The grouping has one entry per key, in the order the keys first occur,
  /// and no entry is empty.
  lemma {:induction false} GroupByOrder<K, V>(pairs: seq<(K, V)>, distinct: bool)
    ensures Keys(GroupBy(pairs, distinct)) == Distinct(PairKeys(pairs))
    ensures NonEmptyValues(GroupBy(pairs, distinct))
  {
    if pairs != [] {
      var init := pairs[..|pairs| - 1];
      var (k, v) := pairs[|pairs| - 1];
      GroupByOrder(init, distinct);
      AddShape(GroupBy(init, distinct), k, v, distinct);
      assert PairKeys(pairs) == PairKeys(init) + [k];
      DistinctElements(PairKeys(init));
    }
  }

  /// The grouping holds, under each key, exactly the values paired with it,
  /// without repeats when the values go into a HashSet.
  lemma {:induction false} GroupByLookup<K, V>(pairs: seq<(K, V)>, distinct: bool, key: K)
    ensures Lookup(GroupBy(pairs, distinct), key) ==
            (if distinct then Distinct(Select(pairs, key)) else Select(pairs, key))
  {
    if pairs != [] {
      var init := pairs[..|pairs| - 1];
      var (k, v) := pairs[|pairs| - 1];
      GroupByLookup(init, distinct, key);
      AddShape(GroupBy(init, distinct), k, v, distinct);
      if key == k {
        assert Select(pairs, key) == Select(init, key) + [v];
        assert Select(pairs, key)[..|Select(pairs, key)| - 1] == Select(init, key);
      } else {
        assert Select(pairs, key) == Select(init, key);
      }
    }
  }

  /// A key has an entry exactly when some pair carries it; keys never repeat.
  lemma GroupByKeys<K, V>(pairs: seq<(K, V)>, distinct: bool)
    ensures forall k :: k in Keys(GroupBy(pairs, distinct)) <==> k in PairKeys(pairs)
    ensures DistinctKeys(GroupBy(pairs, distinct))
  {
    GroupByOrder(pairs, distinct);
    DistinctElements(PairKeys(pairs));
    var g := GroupBy(pairs, distinct);
    forall i, j | 0 <= i < j < |g| ensures g[i].key != g[j].key {
      assert Keys(g)[i] == g[i].key && Keys(g)[j] == g[j].key;
    }
  }

  /// Lookup finds the values of the entry that carries the key.
  lemma {:induction false} LookupEntry<K, V>(g: seq<Entry<K, V>>, i: nat)
    requires i < |g| && DistinctKeys(g)
    ensures Lookup(g, g[i].key) == g[i].values
  {
    if i > 0 {
      assert g[0].key != g[i].key;
      assert g[1..][i - 1] == g[i];
      LookupEntry(g[1..], i - 1);
    }
  }

  /// An entry belongs to a grouping exactly when its key occurs among the
  /// pairs and it holds that key's values (each once, for a HashSet).
  lemma GroupByEntries<K, V>(pairs: seq<(K, V)>, distinct: bool, e: Entry<K, V>)
    ensures e in GroupBy(pairs, distinct) <==>
      e.key in PairKeys(pairs) && e.values == if distinct then Distinct(Select(pairs, e.key)) else Select(pairs, e.key)
  {
    var g := GroupBy(pairs, distinct);
    GroupByKeys(pairs, distinct);
    GroupByLookup(pairs, distinct, e.key);
    if e in g {
      var i :| 0 <= i < |g| && g[i] == e;
      assert Keys(g)[i] == e.key;
      LookupEntry(g, i);
    } else if e.key in PairKeys(pairs) {
      var i :| 0 <= i < |g| && Keys(g)[i] == e.key;
      LookupEntry(g, i);
    }
  }

  /// The entries holding more than one value, in order.
  function Shared<K, V>(g: seq<Entry<K, V>>): (r: seq<Entry<K, V>>)
    ensures forall i :: 0 <= i < |r| ==> r[i] in g && |r[i].values| > 1
    ensures forall i :: 0 <= i < |g| && |g[i].values| > 1 ==> g[i] in r
  {
    if g == [] then [] else Shared(g[..|g| - 1]) + if |g[|g| - 1].values| > 1 then [g[|g| - 1]] else []
  }

  /// A value is selected for a key exactly when the pair occurs.
  lemma {:induction false} SelectMembers<K, V>(pairs: seq<(K, V)>, k: K)
    ensures forall v :: v in Select(pairs, k) <==> (k, v) in pairs
  {
    if pairs != [] {
      var init := pairs[..|pairs| - 1];
      SelectMembers(init, k);
      assert pairs == init + [pairs[|pairs| - 1]];
    }
  }

  /// An entry of a HashSet grouping is not empty, repeats no value, and
  /// holds exactly the values paired with its key.
  lemma HashSetEntry<K, V>(pairs: seq<(K, V)>, e: Entry<K, V>)
    requires e in GroupBy(pairs, true)
    ensures e.values != []
    ensures forall i, j :: 0 <= i < j < |e.values| ==> e.values[i] != e.values[j]
    ensures forall v :: v in e.values <==> (e.key, v) in pairs
  {
    GroupByEntries(pairs, true, e);
    DistinctElements(Select(pairs, e.key));
    SelectMembers(pairs, e.key);
    var k :| 0 <= k < |pairs| && PairKeys(pairs)[k] == e.key;
    assert pairs[k].1 in Select(pairs, e.key);
  }

  /// Each entry's values with repeats removed (List.Distinct).
  function DistinctValues<K, V(==)>(g: seq<Entry<K, V>>): (r: seq<Entry<K, V>>)
    ensures |r| == |g| && forall i :: 0 <= i < |g| ==> r[i] == Entry(g[i].key, Distinct(g[i].values))
  {
    if g == [] then [] else [Entry(g[0].key, Distinct(g[0].values))] + DistinctValues(g[1..])
  }

  /// Grouping into Lists and then removing repeats gives the same entries,
  /// in the same order, as grouping into HashSets.
  lemma ListThenDistinct<K, V>(pairs: seq<(K, V)>)
    ensures DistinctValues(GroupBy(pairs, false)) == GroupBy(pairs, true)
  {
    var lists := GroupBy(pairs, false);
    var sets := GroupBy(pairs, true);
    GroupByOrder(pairs, false);
    GroupByOrder(pairs, true);
    GroupByKeys(pairs, false);
    GroupByKeys(pairs, true);
    assert |lists| == |Keys(lists)| == |Keys(sets)| == |sets|;
    forall i | 0 <= i < |lists|
      ensures DistinctValues(lists)[i] == sets[i]
    {
      var k := lists[i].key;
      assert Keys(lists)[i] == k == Keys(sets)[i];
      LookupEntry(lists, i);
      LookupEntry(sets, i);
      GroupByLookup(pairs, false, k);
      GroupByLookup(pairs, true, k);
    }
  }
}
