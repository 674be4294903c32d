/** Maps filled by inserting pairs in order: a later pair replaces an earlier one with the same key. */
module LastWins {

  /** What inserting the pairs one after the other leaves. */
  function Insert<K(==), V>(pairs: seq<(K, V)>): map<K, V> {
    if pairs == [] then map[]
    else Insert(pairs[..|pairs| - 1])[pairs[|pairs| - 1].0 := pairs[|pairs| - 1].1]
  }

  /** Pair `i` is the last one with key `k`. */
  ghost predicate IsLast<K, V>(pairs: seq<(K, V)>, i: int, k: K) {
    0 <= i < |pairs| && pairs[i].0 == k && forall j | i < j < |pairs| :: pairs[j].0 != k
  }

  /** A key is present exactly when some pair is the last one with it, and then has that pair's value. */
  lemma {:induction false} InsertExact<K, V>(pairs: seq<(K, V)>, k: K)
    ensures k in Insert(pairs) <==> exists i :: IsLast(pairs, i, k)
    ensures forall i | IsLast(pairs, i, k) :: Insert(pairs)[k] == pairs[i].1
  {
    if pairs != [] {
      var n := |pairs| - 1;
      var front := pairs[..n];
      InsertExact(front, k);
      if pairs[n].0 == k {
        assert IsLast(pairs, n, k);
        assert forall i | IsLast(pairs, i, k) :: i == n;
      } else {
        assert forall i :: IsLast(pairs, i, k) <==> IsLast(front, i, k);
      }
    }
  }

  lemma InsertSnoc<K, V>(pairs: seq<(K, V)>, k: K, v: V)
    ensures Insert(pairs + [(k, v)]) == Insert(pairs)[k := v]
  {
  }

  /** `pairs` lists the entries of `m`, in any order and with any repetition. */
  ghost predicate Lists<K, V>(pairs: seq<(K, V)>, m: map<K, V>) {
    && (forall i | 0 <= i < |pairs| :: pairs[i].0 in m && m[pairs[i].0] == pairs[i].1)
    && (forall k | k in m :: exists i :: IsLast(pairs, i, k))
  }

  /** Inserting any listing of a map rebuilds it. */
  lemma InsertListing<K(!new), V>(pairs: seq<(K, V)>, m: map<K, V>)
    requires Lists(pairs, m)
    ensures Insert(pairs) == m
  {
    var r := Insert(pairs);
    forall k
      ensures k in r <==> k in m
      ensures k in r ==> r[k] == m[k]
    {
      InsertExact(pairs, k);
    }
  }
}
