/**
  Totals of a rank over the values of a map, for arguments that every step of a protocol
  brings its participants nearer their end.
 */
module Totals {
  ghost function Total<K, V>(m: map<K, V>, rank: V -> nat, keys: set<K>): nat
    requires keys <= m.Keys
  {
    if keys == {} then 0
    else
      var k :| k in keys;
      rank(m[k]) + Total(m, rank, keys - {k})
  }

  lemma {:induction false} TotalSplit<K, V>(m: map<K, V>, rank: V -> nat, keys: set<K>, k: K)
    requires keys <= m.Keys && k in keys
    ensures Total(m, rank, keys) == rank(m[k]) + Total(m, rank, keys - {k})
    decreases |keys|
  {
    var l :| l in keys && Total(m, rank, keys) == rank(m[l]) + Total(m, rank, keys - {l});
    if l != k {
      TotalSplit(m, rank, keys - {l}, k);
      TotalSplit(m, rank, keys - {k}, l);
      assert keys - {l} - {k} == keys - {k} - {l};
    }
  }

  lemma {:induction false} TotalSame<K, V>(a: map<K, V>, b: map<K, V>, rank: V -> nat, keys: set<K>)
    requires keys <= a.Keys && keys <= b.Keys && forall k :: k in keys ==> a[k] == b[k]
    ensures Total(a, rank, keys) == Total(b, rank, keys)
    decreases |keys|
  {
    if keys != {} {
      var k :| k in keys;
      TotalSplit(a, rank, keys, k);
      TotalSplit(b, rank, keys, k);
      TotalSame(a, b, rank, keys - {k});
    }
  }

  lemma {:induction false} TotalBound<K, V>(m: map<K, V>, rank: V -> nat, keys: set<K>, most: nat)
    requires keys <= m.Keys && forall v :: rank(v) <= most
    ensures Total(m, rank, keys) <= most * |keys|
    decreases |keys|
  {
    if keys != {} {
      var k :| k in keys;
      TotalSplit(m, rank, keys, k);
      TotalBound(m, rank, keys - {k}, most);
    }
  }

  // One value changes.
  lemma OneChanges<K, V>(a: map<K, V>, b: map<K, V>, rank: V -> nat, k: K)
    requires k in a && k in b && b == a[k := b[k]]
    ensures a.Keys == b.Keys
    ensures Total(b, rank, b.Keys) - rank(b[k]) == Total(a, rank, a.Keys) - rank(a[k])
  {
    assert a.Keys == b.Keys;
    TotalSplit(a, rank, a.Keys, k);
    TotalSplit(b, rank, b.Keys, k);
    TotalSame(a, b, rank, a.Keys - {k});
  }

  // Two values change.
  lemma TwoChange<K, V>(a: map<K, V>, b: map<K, V>, rank: V -> nat, k: K, l: K)
    requires k != l && k in a && l in a && a.Keys == b.Keys
    requires forall z :: z in a && z != k && z != l ==> a[z] == b[z]
    ensures
      Total(b, rank, b.Keys) - rank(b[k]) - rank(b[l]) == Total(a, rank, a.Keys) - rank(a[k]) - rank(a[l])
  {
    var keys := a.Keys;
    TotalSplit(a, rank, keys, k);
    TotalSplit(b, rank, keys, k);
    TotalSplit(a, rank, keys - {k}, l);
    TotalSplit(b, rank, keys - {k}, l);
    TotalSame(a, b, rank, keys - {k} - {l});
  }
}
