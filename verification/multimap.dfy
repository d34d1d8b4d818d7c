/** The accumulator both scripts build with `mutableMapOf<K, MutableList<V>>()` and
    `getOrPut(key) { mutableListOf() }.add(value)`: a map from keys to lists that
    remembers the order in which keys were first added (a LinkedHashMap). Both
    scripts key it by strings. */
module Multimap {

  datatype Multimap<V> = Multimap(keys: seq<string>, lists: map<string, seq<V>>)

  /** Keys are listed once each, exactly the keys that have a list, and a list
      exists only once something has been added to it. */
  ghost predicate Valid<V>(m: Multimap<V>) {
    && (forall i, j :: 0 <= i < j < |m.keys| ==> m.keys[i] != m.keys[j])
    && (forall k :: k in m.lists <==> k in m.keys)
    && (forall k :: k in m.lists ==> |m.lists[k]| > 0)
  }

  function Empty<V>(): (m: Multimap<V>)
    ensures Valid(m)
  {
    Multimap([], map[])
  }

  /** The list stored under `k`; the empty list for a key never added. */
  function Get<V>(m: Multimap<V>, k: string): seq<V> {
    if k in m.lists then m.lists[k] else []
  }

  /** `m.getOrPut(k) { mutableListOf() }.add(v)`. */
  function Add<V>(m: Multimap<V>, k: string, v: V): (r: Multimap<V>)
    requires Valid(m)
    ensures Valid(r)
    ensures Get(r, k) == Get(m, k) + [v]
    ensures forall k' :: k' != k ==> Get(r, k') == Get(m, k')
    ensures k in m.lists ==> r.keys == m.keys
    ensures k !in m.lists ==> r.keys == m.keys + [k]
  {
    if k in m.lists then Multimap(m.keys, m.lists[k := m.lists[k] + [v]])
    else Multimap(m.keys + [k], m.lists[k := [v]])
  }

  /** The values paired with `k` in `items`, in order. */
  function Select<V>(items: seq<(string, V)>, k: string): (vs: seq<V>)
    ensures |vs| <= |items|
  {
    if |items| == 0 then []
    else (if items[0].0 == k then [items[0].1] else []) + Select(items[1..], k)
  }

  /** Adding every pair of `items`, in order. */
  function AddAll<V>(m: Multimap<V>, items: seq<(string, V)>): (r: Multimap<V>)
    requires Valid(m)
    ensures Valid(r)
    ensures forall k :: Get(r, k) == Get(m, k) + Select(items, k)
    ensures |m.keys| <= |r.keys| && r.keys[..|m.keys|] == m.keys
    ensures forall k :: k in r.keys <==> k in m.keys || |Select(items, k)| > 0
    decreases |items|
  {
    if |items| == 0 then m
    else
      var m' := Add(m, items[0].0, items[0].1);
      var r := AddAll(m', items[1..]);
      AddAllStep(m, m', r, items);
      r
  }

  lemma AddAllStep<V>(m: Multimap<V>, m': Multimap<V>, r: Multimap<V>, items: seq<(string, V)>)
    requires |items| > 0
    requires Get(m', items[0].0) == Get(m, items[0].0) + [items[0].1]
    requires forall k :: k != items[0].0 ==> Get(m', k) == Get(m, k)
    requires |m.keys| <= |m'.keys| && m'.keys[..|m.keys|] == m.keys
    requires forall k :: Get(r, k) == Get(m', k) + Select(items[1..], k)
    requires |m'.keys| <= |r.keys| && r.keys[..|m'.keys|] == m'.keys
    ensures forall k :: Get(r, k) == Get(m, k) + Select(items, k)
    ensures |m.keys| <= |r.keys| && r.keys[..|m.keys|] == m.keys
  {
    forall k
      ensures Get(r, k) == Get(m, k) + Select(items, k)
    {
      var here: seq<V> := if k == items[0].0 then [items[0].1] else [];
      SelectCons(items, k);
      AppendStep(Get(m, k), Get(m', k), Get(r, k), here, Select(items[1..], k));
    }
    PrefixOfPrefix(r.keys, m'.keys, m.keys);
  }

  lemma SelectCons<V>(items: seq<(string, V)>, k: string)
    requires |items| > 0
    ensures Select(items, k) == (if k == items[0].0 then [items[0].1] else []) + Select(items[1..], k)
  {
  }

  lemma AppendStep<V>(before: seq<V>, middle: seq<V>, after: seq<V>, here: seq<V>, rest: seq<V>)
    requires middle == before + here
    requires after == middle + rest
    ensures after == before + (here + rest)
  {
  }

  lemma PrefixOfPrefix<T>(a: seq<T>, b: seq<T>, c: seq<T>)
    requires |b| <= |a| && a[..|b|] == b
    requires |c| <= |b| && b[..|c|] == c
    ensures |c| <= |a| && a[..|c|] == c
  {
    assert a[..|c|] == a[..|b|][..|c|];
  }

  /** Every value added lands in exactly one list: the lists together hold as
      many values as there were items. */
  function Total<V>(m: Multimap<V>, keys: seq<string>): nat {
    if |keys| == 0 then 0
    else |Get(m, keys[0])| + Total(m, keys[1..])
  }

  /** Changing the list of one key changes the total over a duplicate-free key
      list that holds it by exactly the change in that list's length. */
  lemma {:induction false} TotalUpdate<V>(m: Multimap<V>, m': Multimap<V>, keys: seq<string>, k: string)
    requires forall i, j :: 0 <= i < j < |keys| ==> keys[i] != keys[j]
    requires forall k' :: k' != k ==> Get(m', k') == Get(m, k')
    ensures k in keys ==> Total(m', keys) + |Get(m, k)| == Total(m, keys) + |Get(m', k)|
    ensures k !in keys ==> Total(m', keys) == Total(m, keys)
    decreases |keys|
  {
    if |keys| > 0 {
      TotalUpdate(m, m', keys[1..], k);
      if keys[0] == k {
        assert k !in keys[1..];
      }
    }
  }

  lemma {:induction false} TotalAppend<V>(m: Multimap<V>, keys: seq<string>, k: string)
    ensures Total(m, keys + [k]) == Total(m, keys) + |Get(m, k)|
    decreases |keys|
  {
    if |keys| == 0 {
      assert keys + [k] == [k];
    } else {
      assert (keys + [k])[1..] == keys[1..] + [k];
      TotalAppend(m, keys[1..], k);
    }
  }

  /** `Add` stores exactly one more value. */
  lemma AddTotal<V>(m: Multimap<V>, k: string, v: V)
    requires Valid(m)
    ensures Total(Add(m, k, v), Add(m, k, v).keys) == Total(m, m.keys) + 1
  {
    var r := Add(m, k, v);
    if k in m.lists {
      TotalUpdate(m, r, m.keys, k);
    } else {
      TotalUpdate(m, r, m.keys, k);
      TotalAppend(r, m.keys, k);
    }
  }

  /** `AddAll` stores exactly one value per item, whatever the keys. */
  lemma {:induction false} AddAllTotal<V>(m: Multimap<V>, items: seq<(string, V)>)
    requires Valid(m)
    ensures Total(AddAll(m, items), AddAll(m, items).keys) == Total(m, m.keys) + |items|
    decreases |items|
  {
    if |items| > 0 {
      AddTotal(m, items[0].0, items[0].1);
      AddAllTotal(Add(m, items[0].0, items[0].1), items[1..]);
    }
  }

  /** Some value is selected for `k` exactly when some item has key `k`. */
  lemma {:induction false} SelectNonEmpty<V>(items: seq<(string, V)>, k: string)
    ensures |Select(items, k)| > 0 <==> exists i :: 0 <= i < |items| && items[i].0 == k
    decreases |items|
  {
    if |items| > 0 {
      SelectNonEmpty(items[1..], k);
      if exists i :: 0 <= i < |items[1..]| && items[1..][i].0 == k {
        var i :| 0 <= i < |items[1..]| && items[1..][i].0 == k;
        assert items[i + 1].0 == k;
      }
      if exists i :: 0 <= i < |items| && items[i].0 == k {
        var i :| 0 <= i < |items| && items[i].0 == k;
        if i > 0 {
          assert items[1..][i - 1].0 == k;
        }
      }
    }
  }

  /** A value is selected for `k` exactly when the pair is among the items. */
  lemma {:induction false} SelectMember<V>(items: seq<(string, V)>, k: string, v: V)
    ensures v in Select(items, k) <==> (k, v) in items
    decreases |items|
  {
    if |items| > 0 {
      SelectMember(items[1..], k, v);
      assert items == [items[0]] + items[1..];
    }
  }
}
