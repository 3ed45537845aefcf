/** The JavaScript Map: keys in insertion order. Setting a key that is present keeps its position. */
module OrderedMap {
  import opened Wrappers

  type OMap<K, V> = seq<(K, V)>

  function Lookup<K(==), V>(m: OMap<K, V>, k: K): Option<V> {
    if m == [] then None else if m[0].0 == k then Some(m[0].1) else Lookup(m[1..], k)
  }

  predicate Has<K(==), V>(m: OMap<K, V>, k: K) {
    Lookup(m, k).Some?
  }

  function Put<K(==), V>(m: OMap<K, V>, k: K, v: V): OMap<K, V> {
    if m == [] then [(k, v)] else if m[0].0 == k then [(k, v)] + m[1..] else [m[0]] + Put(m[1..], k, v)
  }

  function Delete<K(==), V>(m: OMap<K, V>, k: K): OMap<K, V> {
    if m == [] then [] else if m[0].0 == k then m[1..] else [m[0]] + Delete(m[1..], k)
  }

  ghost predicate Distinct<K, V>(m: OMap<K, V>) {
    m != [] ==> !Has(m[1..], m[0].0) && Distinct(m[1..])
  }

  lemma {:induction false} LookupAt<K, V>(m: OMap<K, V>, i: nat)
    requires Distinct(m) && i < |m|
    ensures Lookup(m, m[i].0) == Some(m[i].1)
  {
    if i > 0 {
      LookupAt(m[1..], i - 1);
    }
  }

  lemma {:induction false} DeleteLooksUp<K, V>(m: OMap<K, V>, k: K)
    requires Distinct(m)
    ensures Distinct(Delete(m, k))
    ensures forall x :: x != k ==> Lookup(Delete(m, k), x) == Lookup(m, x)
    ensures !Has(Delete(m, k), k)
    ensures forall e :: e in Delete(m, k) ==> e in m
  {
    if m != [] {
      if m[0].0 != k {
        DeleteLooksUp(m[1..], k);
      }
    }
  }

  lemma {:induction false} PutLooksUp<K, V>(m: OMap<K, V>, k: K, v: V)
    requires Distinct(m)
    ensures Distinct(Put(m, k, v))
    ensures forall x :: Lookup(Put(m, k, v), x) == if x == k then Some(v) else Lookup(m, x)
    ensures forall e :: e in Put(m, k, v) ==> e in m || e == (k, v)
  {
    if m != [] && m[0].0 != k {
      PutLooksUp(m[1..], k, v);
    }
  }

  /** Deleting and then setting a key moves it to the end. */
  lemma {:induction false} PutAfterDelete<K, V>(m: OMap<K, V>, k: K, v: V)
    requires !Has(m, k)
    ensures Put(m, k, v) == m + [(k, v)]
  {
    if m != [] {
      PutAfterDelete(m[1..], k, v);
    }
  }

  lemma KeyOnce<K, V>(m: OMap<K, V>, i: nat)
    requires Distinct(m) && 0 < i < |m|
    ensures m[0].0 != m[i].0
  {
    LookupAt(m[1..], i - 1);
  }

  lemma CutBehind<K, V>(m: OMap<K, V>, i: nat)
    requires 0 < i < |m|
    ensures m[..i] + m[i + 1..] == [m[0]] + (m[1..][..i - 1] + m[1..][i..])
  {
  }

  /** With distinct keys, cutting out a position deletes its key. */
  lemma {:induction false} CutIsDelete<K, V>(m: OMap<K, V>, i: nat)
    requires Distinct(m) && i < |m|
    ensures m[..i] + m[i + 1..] == Delete(m, m[i].0)
  {
    if i > 0 {
      KeyOnce(m, i);
      CutIsDelete(m[1..], i - 1);
      CutBehind(m, i);
    } else {
      assert m[..0] + m[1..] == m[1..];
    }
  }
}
