/** The flat map: an array of elements kept in ascending key order, searched by bisection. */
module FlatMap {
  import opened Wrappers
  import opened Orders
  import opened Bounds
  import HeapSort

  datatype Element<K, V> = Element(key: K, value: V)

  ghost predicate Ascending<K(!new), V>(compare: (K, K) -> bool, s: seq<Element<K, V>>) {
    forall i, j :: 0 <= i < j < |s| ==> compare(s[i].key, s[j].key)
  }

  /** The mathematical map the elements stand for: the value stored under a key equivalent to `k`. */
  function Lookup<K, V>(compare: (K, K) -> bool, s: seq<Element<K, V>>, k: K): Option<V> {
    if s == [] then None
    else if Incomparable(compare, s[0].key, k) then Some(s[0].value)
    else Lookup(compare, s[1..], k)
  }

  lemma {:induction false} LookupFound<K(!new), V>(compare: (K, K) -> bool, s: seq<Element<K, V>>, k: K, i: nat)
    requires StrictWeakOrder(compare) && Ascending(compare, s)
    requires i < |s| && Incomparable(compare, s[i].key, k)
    ensures Lookup(compare, s, k) == Some(s[i].value)
  {
    if i > 0 {
      if Incomparable(compare, s[0].key, k) {
        assert Incomparable(compare, k, s[i].key);
        assert false;
      }
      LookupFound(compare, s[1..], k, i - 1);
    }
  }

  lemma {:induction false} LookupMissing<K(!new), V>(compare: (K, K) -> bool, s: seq<Element<K, V>>, k: K)
    requires forall i :: 0 <= i < |s| ==> !Incomparable(compare, s[i].key, k)
    ensures Lookup(compare, s, k) == None
  {
    if s != [] {
      LookupMissing(compare, s[1..], k);
    }
  }

  /** The place of `k`: the elements before it have lesser keys, the others do not. */
  ghost predicate PlaceOf<K(!new), V>(compare: (K, K) -> bool, s: seq<Element<K, V>>, k: K, r: nat) {
    r <= |s| && forall i :: 0 <= i < |s| ==> (compare(s[i].key, k) <==> i < r)
  }

  ghost predicate PresentAt<K(!new), V>(compare: (K, K) -> bool, s: seq<Element<K, V>>, k: K, r: nat) {
    r < |s| && Incomparable(compare, s[r].key, k)
  }

  lemma AscendingPartitions<K(!new), V>(compare: (K, K) -> bool, s: seq<Element<K, V>>, k: K)
    requires StrictWeakOrder(compare) && Ascending(compare, s)
    ensures LessFirst(s, 0, |s|, k, (e: Element<K, V>, x: K) => compare(e.key, x))
    ensures GreaterLast(s, 0, |s|, k, (x: K, e: Element<K, V>) => compare(x, e.key))
  {
  }

  /** Looking a key up is looking at its place. */
  lemma LookupAtPlace<K(!new), V>(compare: (K, K) -> bool, s: seq<Element<K, V>>, k: K, r: nat)
    requires StrictWeakOrder(compare) && Ascending(compare, s) && PlaceOf(compare, s, k, r)
    ensures r < |s| ==> !compare(s[r].key, k)
    ensures Lookup(compare, s, k) == if PresentAt(compare, s, k, r) then Some(s[r].value) else None
  {
    if PresentAt(compare, s, k, r) {
      LookupFound(compare, s, k, r);
    } else {
      forall i | 0 <= i < |s|
        ensures !Incomparable(compare, s[i].key, k)
      {
        if r < i {
          assert compare(s[r].key, s[i].key);
          assert !compare(s[r].key, k);
        }
      }
      LookupMissing(compare, s, k);
    }
  }

  /** `t` is `s` with the key `k` set to `v`, as maps. */
  ghost predicate IsUpdate<K(!new), V>(compare: (K, K) -> bool, s: seq<Element<K, V>>, k: K, v: V,
                                       t: seq<Element<K, V>>)
  {
    forall x :: Lookup(compare, t, x) == if Incomparable(compare, x, k) then Some(v) else Lookup(compare, s, x)
  }

  lemma {:induction false} LookupConcat<K(!new), V>(compare: (K, K) -> bool, s: seq<Element<K, V>>,
                                                    t: seq<Element<K, V>>, k: K)
    ensures Lookup(compare, s + t, k)
            == if Lookup(compare, s, k).Some? then Lookup(compare, s, k) else Lookup(compare, t, k)
  {
    if s == [] {
      assert s + t == t;
    } else {
      assert (s + t)[1..] == s[1..] + t;
      LookupConcat(compare, s[1..], t, k);
    }
  }

  /** The keys after the place of `k`, an equivalent one aside, are greater than `k`. */
  lemma LaterGreater<K(!new), V>(compare: (K, K) -> bool, s: seq<Element<K, V>>, k: K, r: nat)
    requires StrictWeakOrder(compare) && Ascending(compare, s) && PlaceOf(compare, s, k, r)
    ensures forall i :: r <= i < |s| && (i > r || !PresentAt(compare, s, k, r)) ==> compare(k, s[i].key)
  {
    forall i | r <= i < |s| && (i > r || !PresentAt(compare, s, k, r))
      ensures compare(k, s[i].key)
    {
      if i > r {
        assert compare(s[r].key, s[i].key);
        if !compare(k, s[i].key) {
          NotLessTransitive(compare, s[i].key, k, s[r].key);
        }
      }
    }
  }

  lemma IncomparableThrough<K(!new)>(compare: (K, K) -> bool, x: K, y: K, z: K)
    requires StrictWeakOrder(compare) && Incomparable(compare, x, y)
    ensures Incomparable(compare, y, z) <==> Incomparable(compare, x, z)
  {
    assert Incomparable(compare, y, x);
  }

  lemma PlacedAscends<K(!new), V>(compare: (K, K) -> bool, s: seq<Element<K, V>>, k: K, v: V, r: nat)
    requires StrictWeakOrder(compare) && Ascending(compare, s) && PlaceOf(compare, s, k, r)
    ensures Ascending(compare, s[..r] + [Element(k, v)] + s[if PresentAt(compare, s, k, r) then r + 1 else r..])
  {
    LaterGreater(compare, s, k, r);
  }

  /** Putting `k` in its place, over the equivalent key or between its neighbours, is the map update. */
  lemma PlacedIsUpdate<K(!new), V>(compare: (K, K) -> bool, s: seq<Element<K, V>>, k: K, v: V, r: nat)
    requires StrictWeakOrder(compare) && Ascending(compare, s) && PlaceOf(compare, s, k, r)
    ensures IsUpdate(compare, s, k, v,
                     s[..r] + [Element(k, v)] + s[if PresentAt(compare, s, k, r) then r + 1 else r..])
  {
    var rest := s[if PresentAt(compare, s, k, r) then r + 1 else r..];
    forall x
      ensures Lookup(compare, s[..r] + [Element(k, v)] + rest, x)
              == if Incomparable(compare, x, k) then Some(v) else Lookup(compare, s, x)
    {
      PlacedLooksUp(compare, s, k, v, r, x);
    }
  }

  lemma PlacedLooksUp<K(!new), V>(compare: (K, K) -> bool, s: seq<Element<K, V>>, k: K, v: V, r: nat, x: K)
    requires StrictWeakOrder(compare) && Ascending(compare, s) && PlaceOf(compare, s, k, r)
    ensures Lookup(compare, s[..r] + [Element(k, v)] + s[if PresentAt(compare, s, k, r) then r + 1 else r..], x)
            == if Incomparable(compare, x, k) then Some(v) else Lookup(compare, s, x)
  {
    var rest := s[if PresentAt(compare, s, k, r) then r + 1 else r..];
    var tail := [Element(k, v)] + rest;
    assert s[..r] + [Element(k, v)] + rest == s[..r] + tail;
    LookupConcat(compare, s[..r], tail, x);
    assert tail[1..] == rest;
    if Incomparable(compare, x, k) {
      forall i | 0 <= i < r
        ensures !Incomparable(compare, s[..r][i].key, x)
      {
        assert compare(s[i].key, k);
        IncomparableThrough(compare, x, k, s[i].key);
      }
      LookupMissing(compare, s[..r], x);
    } else {
      assert s == s[..r] + s[r..];
      LookupConcat(compare, s[..r], s[r..], x);
      if PresentAt(compare, s, k, r) {
        IncomparableThrough(compare, k, s[r].key, x);
        assert s[r..][1..] == rest;
      }
    }
  }

  /** What an insertion at the place of the key leaves. */
  lemma PlacedMeans<K(!new), V>(compare: (K, K) -> bool, s: seq<Element<K, V>>, k: K, v: V, r: nat,
                                t: seq<Element<K, V>>)
    requires StrictWeakOrder(compare) && Ascending(compare, s) && PlaceOf(compare, s, k, r)
    requires t == s[..r] + [Element(k, v)] + s[if PresentAt(compare, s, k, r) then r + 1 else r..]
    ensures Ascending(compare, t) && IsUpdate(compare, s, k, v, t)
    ensures |t| == |s| + (if Lookup(compare, s, k).None? then 1 else 0)
  {
    PlacedAscends(compare, s, k, v, r);
    PlacedIsUpdate(compare, s, k, v, r);
    LookupAtPlace(compare, s, k, r);
  }

  /** A shift up by one and a write make room for one element. */
  lemma ShiftedIn<T>(s: seq<T>, all: seq<T>, r: nat, x: T)
    requires r < |s| < |all|
    requires all[..r] == s[..r] && all[r] == x && all[r + 1..|s| + 1] == s[r..]
    ensures all[..|s| + 1] == s[..r] + [x] + s[r..]
  {
    assert all[..|s| + 1] == all[..r] + [all[r]] + all[r + 1..|s| + 1];
  }

  datatype Outcome = Stored | Dropped | OutOfBound

  class Map<K(!new), V> {
    const compare: (K, K) -> bool
    const data: array<Element<K, V>>
    var size: nat

    ghost predicate Valid()
      reads this, data
    {
      StrictWeakOrder(compare) && size <= data.Length && Ascending(compare, data[..size])
    }

    /** The elements in the map, in order. */
    function Elements(): seq<Element<K, V>>
      requires size <= data.Length
      reads this, data
    {
      data[..size]
    }

    /** An empty map over the storage given. */
    constructor (compare: (K, K) -> bool, storage: array<Element<K, V>>)
      requires StrictWeakOrder(compare)
      ensures Valid() && Elements() == []
      ensures this.compare == compare && data == storage
    {
      this.compare, data, size := compare, storage, 0;
    }

    method LowerBound(key: K) returns (r: nat)
      requires Valid()
      ensures PlaceOf(compare, Elements(), key, r)
    {
      AscendingPartitions(compare, data[..size], key);
      r := Bounds.LowerBound(data[..size], 0, size, key, (e: Element<K, V>, x: K) => compare(e.key, x));
    }

    method UpperBound(key: K) returns (r: nat)
      requires Valid()
      ensures r <= size && forall i :: 0 <= i < size ==> (compare(key, Elements()[i].key) <==> i >= r)
    {
      AscendingPartitions(compare, data[..size], key);
      r := Bounds.UpperBound(data[..size], 0, size, key, (x: K, e: Element<K, V>) => compare(x, e.key));
    }

    /** The range of the elements with the key: one element, or none. */
    method EqualRange(key: K) returns (lower: nat, upper: nat)
      requires Valid()
      ensures lower <= upper <= size
      ensures match Lookup(compare, Elements(), key)
              case Some(v) => upper == lower + 1 && Elements()[lower].value == v
              case None => upper == lower
    {
      lower := LowerBound(key);
      upper := UpperBound(key);
      LookupAtPlace(compare, data[..size], key, lower);
      LaterGreater(compare, data[..size], key, lower);
      assert lower < size ==> !compare(Elements()[lower].key, key);
      assert lower + 1 < size ==> compare(key, Elements()[lower + 1].key);
      assert lower > 0 ==> compare(Elements()[lower - 1].key, key) && !compare(key, Elements()[lower - 1].key);
    }

    /** The position of the key, or the end. */
    method Find(key: K) returns (r: nat)
      requires Valid()
      ensures r <= size
      ensures r < size <==> Lookup(compare, Elements(), key).Some?
      ensures r < size ==> Lookup(compare, Elements(), key) == Some(Elements()[r].value)
                           && Incomparable(compare, Elements()[r].key, key)
    {
      var it := LowerBound(key);
      LookupAtPlace(compare, data[..size], key, it);
      if it != size {
        if !compare(key, data[it].key) {
          return it;
        }
      }
      return size;
    }

    method Contains(key: K) returns (b: bool)
      requires Valid()
      ensures b <==> Lookup(compare, Elements(), key).Some?
    {
      var it := Find(key);
      return it != size;
    }

    /** `None` is the failed assertion for a missing key. */
    method At(key: K) returns (v: Option<V>)
      requires Valid()
      ensures v == Lookup(compare, Elements(), key)
    {
      var it := Find(key);
      if it == size {
        return None;
      }
      return Some(data[it].value);
    }

    /** Moves `data[first..last]` up by one position, from the back. */
    method MoveBackward(first: nat, last: nat)
      requires first <= last < data.Length
      modifies data
      ensures data[..first + 1] == old(data[..first + 1])
      ensures data[first + 1..last + 1] == old(data[first..last])
      ensures data[last + 1..] == old(data[last + 1..])
    {
      var l := last;
      while first != l
        invariant first <= l <= last
        invariant forall i :: l < i <= last ==> data[i] == old(data[i - 1])
        invariant forall i :: 0 <= i <= l || last < i < data.Length ==> data[i] == old(data[i])
      {
        data[l] := data[l - 1];
        l := l - 1;
      }
    }

    /** Puts an element before the one at `it`, shifting the later ones up. */
    method InsertBetween(it: nat, element: Element<K, V>)
      requires it < size < data.Length
      modifies this`size, data
      ensures size == old(size) + 1 <= data.Length
      ensures Elements() == old(Elements())[..it] + [element] + old(Elements())[it..]
    {
      ghost var s := Elements();
      assert data[..it + 1][..it] == s[..it] && data[it..size] == s[it..];
      size := size + 1;
      MoveBackward(it, size - 1);
      assert data[..it + 1][..it] == s[..it];
      data[it] := element;
      ShiftedIn(s, data[..], it, element);
    }

    /** insert: an update of the map, except that a new key does not fit a full map. A new greatest key is then
        dropped without a word, any other one fails the assertion. */
    method Insert(key: K, value: V) returns (outcome: Outcome)
      requires Valid()
      modifies this, data
      ensures Valid()
      ensures outcome == Stored <==> old(size) < data.Length || old(Lookup(compare, Elements(), key)).Some?
      ensures outcome == Stored ==> IsUpdate(compare, old(Elements()), key, value, Elements())
      ensures outcome != Stored ==> Elements() == old(Elements())
      ensures outcome == Dropped <==>
                outcome != Stored && forall e :: e in old(Elements()) ==> compare(e.key, key)
      ensures size == old(size) + (if outcome == Stored && old(Lookup(compare, Elements(), key)).None? then 1 else 0)
    {
      var it := LowerBound(key);
      ghost var s := Elements();
      LookupAtPlace(compare, s, key, it);
      if it == size {
        // pushBack, which does nothing when there is no room.
        if size == data.Length {
          return Dropped;
        }
        data[size] := Element(key, value);
        size := size + 1;
        assert Elements() == s[..it] + [Element(key, value)] + s[it..];
      } else if compare(key, data[it].key) {
        if size >= data.Length {
          return OutOfBound;
        }
        InsertBetween(it, Element(key, value));
      } else {
        data[it] := Element(key, value);
        assert Elements() == s[it := Element(key, value)] == s[..it] + [Element(key, value)] + s[it + 1..];
      }
      PlacedMeans(compare, s, key, value, it, Elements());
      return Stored;
    }
  }

  // ---- The list constructor

  function ByKey<K, V>(less: (K, K) -> bool): (Element<K, V>, Element<K, V>) -> bool {
    (x: Element<K, V>, y: Element<K, V>) => less(x.key, y.key)
  }

  lemma ByKeyIsOrder<K(!new), V(!new)>(less: (K, K) -> bool)
    requires StrictWeakOrder(less)
    ensures StrictWeakOrder(ByKey<K, V>(less))
  {
    forall x: Element<K, V>
      ensures !ByKey(less)(x, x)
    {
      assert !less(x.key, x.key);
    }
    forall x: Element<K, V>, y: Element<K, V>, z: Element<K, V> | ByKey(less)(x, y) && ByKey(less)(y, z)
      ensures ByKey(less)(x, z)
    {
      assert less(x.key, y.key) && less(y.key, z.key);
    }
    forall x: Element<K, V>, y: Element<K, V>, z: Element<K, V>
      | Incomparable(ByKey(less), x, y) && Incomparable(ByKey(less), y, z)
      ensures Incomparable(ByKey(less), x, z)
    {
      assert Incomparable(less, x.key, y.key) && Incomparable(less, y.key, z.key);
    }
  }

  ghost predicate NeighboursDiffer<K(!new), V>(compare: (K, K) -> bool, s: seq<Element<K, V>>) {
    forall i :: 0 <= i < |s| - 1 ==> !Incomparable(compare, s[i].key, s[i + 1].key)
  }

  /** Neighbours in order are enough. */
  lemma {:induction false} NeighboursAscend<K(!new), V>(compare: (K, K) -> bool, s: seq<Element<K, V>>)
    requires StrictWeakOrder(compare)
    requires forall i :: 0 <= i < |s| - 1 ==> compare(s[i].key, s[i + 1].key)
    ensures Ascending(compare, s)
  {
    if |s| > 1 {
      NeighboursAscend(compare, s[1..]);
      forall i, j | 0 <= i < j < |s|
        ensures compare(s[i].key, s[j].key)
      {
        if i == 0 && j > 1 {
          assert compare(s[1..][0].key, s[1..][j - 1].key);
        } else if i > 0 {
          assert compare(s[1..][i - 1].key, s[1..][j - 1].key);
        }
      }
    }
  }

  /** Among these elements a key that comes first in the map's order comes first in the keys' own order too. */
  ghost predicate OrdersAgree<K(!new), V>(less: (K, K) -> bool, compare: (K, K) -> bool, s: seq<Element<K, V>>) {
    forall i, j :: 0 <= i < |s| && 0 <= j < |s| && compare(s[i].key, s[j].key) ==> less(s[i].key, s[j].key)
  }

  ghost predicate InOrderOf<K(!new), V>(less: (K, K) -> bool, s: seq<Element<K, V>>) {
    forall i, j :: 0 <= i < j < |s| ==> !less(s[j].key, s[i].key)
  }

  /** The constructor sorts with the keys' own `less` but searches with `compare`. What it accepts is a valid map when
      the orders agree on the keys of the list, and every valid map is accepted. */
  lemma ListOrder<K(!new), V>(less: (K, K) -> bool, compare: (K, K) -> bool, s: seq<Element<K, V>>)
    requires StrictWeakOrder(less) && StrictWeakOrder(compare) && InOrderOf(less, s)
    ensures Ascending(compare, s) ==> NeighboursDiffer(compare, s)
    ensures OrdersAgree(less, compare, s) && NeighboursDiffer(compare, s) ==> Ascending(compare, s)
  {
    if OrdersAgree(less, compare, s) && NeighboursDiffer(compare, s) {
      forall i | 0 <= i < |s| - 1
        ensures compare(s[i].key, s[i + 1].key)
      {
        assert !Incomparable(compare, s[i].key, s[i + 1].key);
        assert !less(s[i + 1].key, s[i].key);
      }
      NeighboursAscend(compare, s);
    }
  }

  ghost predicate SoundFor<K(!new), V(!new)>(less: (K, K) -> bool, compare: (K, K) -> bool, v: V) {
    forall s: seq<Element<K, V>> :: InOrderOf(less, s) && NeighboursDiffer(compare, s) ==> Ascending(compare, s)
  }

  /** The exact condition: whatever list the constructor accepts is a valid map just when the map's order implies the
      keys' own. */
  lemma SoundIff<K(!new), V(!new)>(less: (K, K) -> bool, compare: (K, K) -> bool, v: V)
    requires StrictWeakOrder(less) && StrictWeakOrder(compare)
    ensures SoundFor(less, compare, v) <==> forall x, y :: compare(x, y) ==> less(x, y)
  {
    if forall x, y :: compare(x, y) ==> less(x, y) {
      forall s: seq<Element<K, V>> | InOrderOf(less, s) && NeighboursDiffer(compare, s)
        ensures Ascending(compare, s)
      {
        ListOrder(less, compare, s);
      }
    }
    if SoundFor(less, compare, v) {
      forall x, y | compare(x, y)
        ensures less(x, y)
      {
        if !less(x, y) {
          PairBreaks(less, compare, x, y, v);
        }
      }
    }
  }

  /** Two keys that the orders put differently make an accepted list that is out of the map's order. */
  lemma PairBreaks<K(!new), V>(less: (K, K) -> bool, compare: (K, K) -> bool, x: K, y: K, v: V)
    requires StrictWeakOrder(less) && StrictWeakOrder(compare) && compare(x, y) && !less(x, y)
    ensures var s := [Element(y, v), Element(x, v)];
            InOrderOf(less, s) && NeighboursDiffer(compare, s) && !Ascending(compare, s)
  {
    var s := [Element(y, v), Element(x, v)];
    assert !compare(x, x);
    assert s[0].key == y && s[1].key == x;
    assert compare(y, x) ==> compare(x, x);
  }

  /** With the reversed order the constructor accepts the list of 1 and 2 and leaves it out of order. */
  lemma ReversedOrderBreaks(s: seq<Element<int, int>>)
    requires s == [Element(1, 0), Element(2, 0)]
    ensures StrictWeakOrder((x: int, y: int) => x > y)
    ensures NeighboursDiffer((x: int, y: int) => x > y, s) && !Ascending((x: int, y: int) => x > y, s)
  {
    var compare := (x: int, y: int) => x > y;
    assert !compare(s[0].key, s[1].key);
  }

  /** The vector takes as many elements as the storage holds; then they are sorted. */
  method FillSorted<K(!new), V(!new)>(list: seq<Element<K, V>>, storage: array<Element<K, V>>, less: (K, K) -> bool)
    returns (n: nat)
    requires StrictWeakOrder(less)
    modifies storage
    ensures n == (if |list| < storage.Length then |list| else storage.Length)
    ensures multiset(storage[..n]) == multiset(list[..n])
    ensures InOrderOf(less, storage[..n])
  {
    n := if |list| < storage.Length then |list| else storage.Length;
    var elements := new Element<K, V>[n](i requires 0 <= i < |list| => list[i]);
    assert elements[..] == list[..n];
    ByKeyIsOrder<K, V>(less);
    HeapSort.Sort(elements, ByKey(less));
    ghost var sorted := elements[..];
    forall i, j | 0 <= i < j < n
      ensures !less(sorted[j].key, sorted[i].key)
    {
      assert !ByKey<K, V>(less)(sorted[j], sorted[i]);
    }
    for k := 0 to n
      invariant elements[..] == sorted && storage[..k] == sorted[..k]
    {
      storage[k] := elements[k];
    }
    assert storage[..n] == sorted;
  }

  method CheckDuplicates<K(!new), V>(s: seq<Element<K, V>>, compare: (K, K) -> bool) returns (ok: bool)
    ensures ok <==> NeighboursDiffer(compare, s)
  {
    ok := true;
    if |s| > 1 {
      var previous := 0;
      var it := 1;
      while it < |s|
        invariant it == previous + 1 <= |s|
        invariant ok <==> forall k :: 0 <= k < previous ==> !Incomparable(compare, s[k].key, s[k + 1].key)
      {
        if !compare(s[previous].key, s[it].key) && !compare(s[it].key, s[previous].key) {
          ok := false;
        }
        previous := it;
        it := it + 1;
      }
    }
  }

  lemma SameElementsAgree<K(!new), V>(less: (K, K) -> bool, compare: (K, K) -> bool,
                                      s: seq<Element<K, V>>, t: seq<Element<K, V>>)
    requires OrdersAgree(less, compare, s) && multiset(t) == multiset(s)
    ensures OrdersAgree(less, compare, t)
  {
    forall i, j | 0 <= i < |t| && 0 <= j < |t| && compare(t[i].key, t[j].key)
      ensures less(t[i].key, t[j].key)
    {
      assert t[i] in multiset(t) && t[j] in multiset(t);
      var p :| 0 <= p < |s| && s[p] == t[i];
      var q :| 0 <= q < |s| && s[q] == t[j];
    }
  }

  /** The list constructor; `ok` is false when the duplicate check fails. It takes the elements of the list that fit,
      and accepts exactly the valid maps if the orders agree on their keys. */
  method FromList<K(!new), V(!new)>(list: seq<Element<K, V>>, storage: array<Element<K, V>>,
                                    less: (K, K) -> bool, compare: (K, K) -> bool)
    returns (ok: bool, m: Map<K, V>)
    requires StrictWeakOrder(less) && StrictWeakOrder(compare)
    modifies storage
    ensures fresh(m) && m.data == storage && m.compare == compare
    ensures m.size == (if |list| < storage.Length then |list| else storage.Length)
    ensures multiset(m.Elements()) == multiset(list[..m.size]) && InOrderOf(less, m.Elements())
    ensures ok <==> NeighboursDiffer(compare, m.Elements())
    ensures m.Valid() ==> ok
    ensures OrdersAgree(less, compare, list[..m.size]) ==> (ok <==> m.Valid())
  {
    var n := FillSorted(list, storage, less);
    ghost var sorted := storage[..n];
    ListOrder(less, compare, sorted);
    if OrdersAgree(less, compare, list[..n]) {
      SameElementsAgree(less, compare, list[..n], sorted);
    }
    m := new Map(compare, storage);
    m.size := n;
    ok := CheckDuplicates(storage[..n], compare);
    assert storage[..n] == sorted;
  }
}
