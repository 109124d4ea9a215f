/** An insertion-ordered dictionary, as Python's `dict` behaves: a sequence of
    (key, value) entries with distinct keys, kept in the order in which each
    key was first stored. Storing under a key that is already present replaces
    its value in place; storing a new key appends it. */
module AssocList {
  import opened Results

  /** The keys of the entries, in order. */
  function Keys<K(==, !new), V>(al: seq<(K, V)>): (ks: seq<K>)
    ensures |ks| == |al|
    ensures forall i :: 0 <= i < |al| ==> ks[i] == al[i].0
  {
    if al == [] then [] else [al[0].0] + Keys(al[1..])
  }

  /** The values of the entries, in order. */
  function Values<K(==, !new), V>(al: seq<(K, V)>): (vs: seq<V>)
    ensures |vs| == |al|
    ensures forall i :: 0 <= i < |al| ==> vs[i] == al[i].1
  {
    if al == [] then [] else [al[0].1] + Values(al[1..])
  }

  /** No key is stored twice: the shape every `dict` has. */
  predicate DistinctKeys<K(==, !new), V>(al: seq<(K, V)>) {
    forall i, j :: 0 <= i < j < |al| ==> al[i].0 != al[j].0
  }

  /** Where the entry stored under `k` sits, if any: the first position
      whose key is `k`. */
  function IndexOf<K(==, !new), V>(al: seq<(K, V)>, k: K): (r: Option<nat>)
    ensures r.None? <==> k !in Keys(al)
    ensures r.Some? ==> r.value < |al| && al[r.value].0 == k
    ensures r.Some? ==> forall j :: 0 <= j < r.value ==> al[j].0 != k
  {
    if al == [] then None
    else if al[0].0 == k then Some(0)
    else
      match IndexOf(al[1..], k)
      case None => None
      case Some(i) => Some(i + 1)
  }

  /** A position holding `k` with no earlier `k` is where `IndexOf` finds it. */
  lemma FirstIndex<K(!new), V>(al: seq<(K, V)>, k: K, i: nat)
    requires i < |al| && al[i].0 == k
    requires forall j :: 0 <= j < i ==> al[j].0 != k
    ensures IndexOf(al, k) == Some(i)
  {
    assert Keys(al)[i] == k;
  }

  /** `d.get(k)`: the value stored under `k`, if any. */
  function Lookup<K(==, !new), V>(al: seq<(K, V)>, k: K): (r: Option<V>)
    ensures r.None? <==> k !in Keys(al)
    ensures r.Some? ==> (k, r.value) in al
  {
    match IndexOf(al, k)
    case None => None
    case Some(i) => Some(al[i].1)
  }

  /** `d[k] = v`: replace the value in place when `k` is present, append a
      new entry otherwise. */
  function Insert<K(==, !new), V>(al: seq<(K, V)>, k: K, v: V): seq<(K, V)>
  {
    match IndexOf(al, k)
    case Some(i) => al[i := (k, v)]
    case None => al + [(k, v)]
  }

  /** After `d[k] = v`, `d.get(k)` is `v` and every other key reads as
      before. */
  lemma InsertLookup<K(!new), V>(al: seq<(K, V)>, k: K, v: V, k': K)
    ensures Lookup(Insert(al, k, v), k') == if k' == k then Some(v) else Lookup(al, k')
  {
    var r := Insert(al, k, v);
    match IndexOf(al, k)
    case Some(i) =>
      assert forall j :: 0 <= j < |al| ==> r[j].0 == al[j].0;
      if k' == k {
        FirstIndex(r, k, i);
      } else {
        match IndexOf(al, k')
        case Some(j) =>
          FirstIndex(r, k', j);
        case None =>
          assert forall j :: 0 <= j < |r| ==> r[j].0 != k';
          assert k' !in Keys(r);
      }
    case None =>
      assert forall j :: 0 <= j < |al| ==> r[j] == al[j];
      if k' == k {
        assert forall j :: 0 <= j < |al| ==> al[j].0 != k;
        FirstIndex(r, k, |al|);
      } else {
        match IndexOf(al, k')
        case Some(j) =>
          FirstIndex(r, k', j);
        case None =>
          assert forall j :: 0 <= j < |r| ==> r[j].0 != k';
          assert k' !in Keys(r);
      }
  }

  /** `d[k] = v` keeps the key order when `k` is present and appends `k`
      otherwise; either way no key is stored twice. */
  lemma InsertKeys<K(!new), V>(al: seq<(K, V)>, k: K, v: V)
    ensures Keys(Insert(al, k, v)) == if k in Keys(al) then Keys(al) else Keys(al) + [k]
    ensures k !in Keys(al) ==> Insert(al, k, v) == al + [(k, v)]
    ensures DistinctKeys(al) ==> DistinctKeys(Insert(al, k, v))
  {
    var r := Insert(al, k, v);
    match IndexOf(al, k)
    case Some(i) =>
      assert forall j :: 0 <= j < |al| ==> r[j].0 == al[j].0;
      assert Keys(r) == Keys(al);
    case None =>
      assert forall j :: 0 <= j < |al| ==> r[j] == al[j] && al[j].0 != k;
      assert Keys(r) == Keys(al) + [k];
  }

  /** The entries of `es` stored one after another, in order, into `al`. */
  function InsertAll<K(==, !new), V>(al: seq<(K, V)>, es: seq<(K, V)>): seq<(K, V)>
  {
    if es == [] then al
    else
      var last := es[|es| - 1];
      Insert(InsertAll(al, es[..|es| - 1]), last.0, last.1)
  }

  /** The value of the last entry of `es` whose key is `k`: the one a
      sequence of stores under `k` leaves behind. */
  function LastValue<K(==, !new), V>(es: seq<(K, V)>, k: K): Option<V>
  {
    if es == [] then None
    else if es[|es| - 1].0 == k then Some(es[|es| - 1].1)
    else LastValue(es[..|es| - 1], k)
  }

  /** `s` with every element after its first occurrence removed. */
  function FirstOccurrences<T(==)>(s: seq<T>): seq<T>
  {
    if s == [] then []
    else
      var d := FirstOccurrences(s[..|s| - 1]);
      if s[|s| - 1] in d then d else d + [s[|s| - 1]]
  }

  /** Storing entries into an empty dictionary never stores a key twice. */
  lemma {:induction false} InsertAllDistinctKeys<K(!new), V>(es: seq<(K, V)>)
    ensures DistinctKeys(InsertAll([], es))
  {
    if es != [] {
      var last := es[|es| - 1];
      InsertAllDistinctKeys(es[..|es| - 1]);
      InsertKeys(InsertAll([], es[..|es| - 1]), last.0, last.1);
    }
  }

  /** Storing the entries of `es` into an empty dictionary lists the keys
      in the order of their first store, and so never yields more entries
      than were stored. */
  lemma {:induction false} InsertAllKeys<K(!new), V>(es: seq<(K, V)>)
    ensures Keys(InsertAll([], es)) == FirstOccurrences(Keys(es))
    ensures |InsertAll([], es)| <= |es|
  {
    if es != [] {
      var init := es[..|es| - 1];
      var last := es[|es| - 1];
      var prev := InsertAll([], init);
      InsertAllKeys(init);
      var d := Keys(prev);
      var next := if last.0 in d then d else d + [last.0];
      assert FirstOccurrences(Keys(es)) == next by {
        KeysInit(es);
      }
      assert Keys(InsertAll([], es)) == next by {
        InsertKeys(prev, last.0, last.1);
      }
    }
  }

  /** The keys of all entries but the last are all keys but the last. */
  lemma KeysInit<K(!new), V>(es: seq<(K, V)>)
    requires es != []
    ensures Keys(es)[..|es| - 1] == Keys(es[..|es| - 1])
    ensures Keys(es)[|es| - 1] == es[|es| - 1].0
  {
    var init := es[..|es| - 1];
    var front := Keys(es)[..|es| - 1];
    forall i | 0 <= i < |init| ensures front[i] == Keys(init)[i] {
      assert init[i] == es[i];
    }
  }

  /** Storing the entries of `es` into an empty dictionary: the last store
      under a key wins. */
  lemma {:induction false} InsertAllLastWins<K(!new), V>(es: seq<(K, V)>, k: K)
    ensures Lookup(InsertAll([], es), k) == LastValue(es, k)
  {
    if es != [] {
      var last := es[|es| - 1];
      InsertAllLastWins(es[..|es| - 1], k);
      InsertLookup(InsertAll([], es[..|es| - 1]), last.0, last.1, k);
    }
  }

  /** When no key repeats, storing the entries into an empty dictionary
      gives back the entries unchanged, in order. */
  lemma {:induction false} InsertAllDistinct<K(!new), V>(es: seq<(K, V)>)
    requires DistinctKeys(es)
    ensures InsertAll([], es) == es
  {
    if es != [] {
      var init := es[..|es| - 1];
      var last := es[|es| - 1];
      assert DistinctKeys(init) && last.0 !in Keys(init) by {
        assert forall j :: 0 <= j < |init| ==> init[j] == es[j];
      }
      InsertAllDistinct(init);
      assert InsertAll([], es) == init + [last] by {
        InsertKeys(init, last.0, last.1);
      }
      assert init + [last] == es;
    }
  }
}
