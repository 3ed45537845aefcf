/** The time series object: entries kept in a list that insertion and repair change in place. */
module TimeSeries {
  import opened Wrappers
  import opened SeriesModel

  datatype Mode = Exact | Before | After

  /** The binary search's answer on a list in order: an entry with the timestamp, or the place for one. */
  ghost predicate PlaceFor<V>(s: seq<Entry<V>>, t: real, index: nat) {
    && index <= |s|
    && (|| (index < |s| && s[index].t == t)
        || ((forall i :: 0 <= i < index ==> s[i].t < t) && (forall i :: index <= i < |s| ==> s[i].t > t)))
  }

  /** On an ascending list the place decides what insert does. */
  lemma {:induction false} InsertAtPlace<V>(merge: Merge<V>, s: seq<Entry<V>>, e: Entry<V>, index: nat)
    requires Ascending(s) && PlaceFor(s, e.t, index)
    ensures Insert(merge, s, e) == if index < |s| && s[index].t == e.t
                                   then s[index := Entry(e.t, merge(s[index].v, e.v, e.t))]
                                   else s[..index] + [e] + s[index..]
  {
    if index > 0 {
      assert index < |s| ==> s[0].t < s[index].t;
      assert s[0].t < e.t;
      InsertAtPlace(merge, s[1..], e, index - 1);
      if index < |s| && s[index].t == e.t {
        var x := Entry(e.t, merge(s[index].v, e.v, e.t));
        assert s[index := x] == [s[0]] + s[1..][index - 1 := x];
      } else {
        assert s[..index] + [e] + s[index..] == [s[0]] + (s[1..][..index - 1] + [e] + s[1..][index - 1..]);
      }
    }
  }

  /** In a list in order an entry at its place keeps the order. */
  lemma PlacedInOrder<V>(s: seq<Entry<V>>, e: Entry<V>, index: nat)
    requires index <= |s|
    ensures multiset(s[..index] + [e] + s[index..]) == multiset(s) + multiset{e}
    ensures InOrder(s) && PlaceFor(s, e.t, index) ==> InOrder(s[..index] + [e] + s[index..])
  {
    assert s == s[..index] + s[index..];
    assert multiset(s[..index] + [e] + s[index..]) == multiset(s[..index]) + multiset{e} + multiset(s[index..]);
  }

  /** The list without the positions in `gone`. */
  function Drop<V>(s: seq<Entry<V>>, gone: set<nat>): seq<Entry<V>> {
    if s == [] then []
    else
      var last := |s| - 1;
      if last in gone then Drop(s[..last], gone) else Drop(s[..last], gone) + [s[last]]
  }

  /** Cutting out the greatest position to go. */
  lemma {:induction false} DropGreatest<V>(s: seq<Entry<V>>, gone: set<nat>, d: nat)
    requires d < |s| && forall x :: x in gone ==> x < d
    ensures Drop(s, gone + {d}) == Drop(s[..d] + s[d + 1..], gone)
  {
    var last := |s| - 1;
    if last == d {
      assert s[..d] + s[d + 1..] == s[..last];
      DropBeyond(s[..last], gone, d);
    } else {
      var cut := s[..d] + s[d + 1..];
      assert cut[..|cut| - 1] == s[..last][..d] + s[..last][d + 1..];
      DropGreatest(s[..last], gone, d);
    }
  }

  /** Positions outside the list do not matter. */
  lemma {:induction false} DropBeyond<V>(s: seq<Entry<V>>, gone: set<nat>, d: nat)
    requires d >= |s|
    ensures Drop(s, gone + {d}) == Drop(s, gone)
  {
    if s != [] {
      DropBeyond(s[..|s| - 1], gone, d);
    }
  }

  lemma {:induction false} DropNothing<V>(s: seq<Entry<V>>)
    ensures Drop(s, {}) == s
  {
    if s != [] {
      DropNothing(s[..|s| - 1]);
    }
  }

  ghost function Positions(list: seq<nat>): set<nat> {
    set x | x in list
  }

  class TimeSeries<V> {
    const unique: bool
    const merge: Merge<V>
    /** `-Number.MAX_VALUE`, from which consistencyCheck starts. */
    const lowest: real
    var data: seq<Entry<V>>

    constructor (unique: bool, merge: Merge<V>, lowest: real)
      ensures data == [] && this.unique == unique && this.merge == merge && this.lowest == lowest
    {
      this.unique, this.merge, this.lowest, data := unique, merge, lowest, [];
    }

    /** find_: the binary search. */
    method Search(timestamp: real) returns (index: nat)
      ensures index <= |data|
      ensures InOrder(data) ==> PlaceFor(data, timestamp, index)
    {
      var indexStart: int, indexEnd: int := 0, |data| - 1;
      while indexStart <= indexEnd
        invariant 0 <= indexStart <= |data| && -1 <= indexEnd < |data| && indexStart <= indexEnd + 1
        invariant InOrder(data) ==> forall i :: 0 <= i < indexStart ==> data[i].t < timestamp
        invariant InOrder(data) ==> forall i :: indexEnd < i < |data| ==> data[i].t > timestamp
      {
        var indexCurrent := (indexStart + indexEnd) / 2;
        var timestampCurrent := data[indexCurrent].t;
        if timestampCurrent == timestamp {
          return indexCurrent;
        } else if timestampCurrent < timestamp {
          indexStart := indexCurrent + 1;
        } else {
          indexEnd := indexCurrent - 1;
        }
      }
      return indexStart;
    }

    method Find(timestamp: real, mode: Mode) returns (r: Option<int>)
      requires InOrder(data)
      ensures (exists i :: 0 <= i < |data| && data[i].t == timestamp) ==>
                r.Some? && 0 <= r.value < |data| && data[r.value].t == timestamp
      ensures (forall i :: 0 <= i < |data| ==> data[i].t != timestamp) ==>
                match mode
                case Exact => r == None
                case Before => r.Some? && -1 <= r.value < |data| &&
                               forall i :: 0 <= i < |data| ==> (data[i].t < timestamp <==> i <= r.value)
                case After => r.Some? && 0 <= r.value <= |data| &&
                              forall i :: 0 <= i < |data| ==> (data[i].t < timestamp <==> i < r.value)
    {
      var index := Search(timestamp);
      if index < |data| && data[index].t == timestamp {
        return Some(index);
      }
      match mode {
        case Exact => return None;
        case Before => return Some(index - 1);
        case After => return Some(index);
      }
    }

    /** A unique series stays ascending and takes the entry in; another one stays in order and holds one entry
        more. */
    method Insert(timestamp: real, value: V)
      modifies this`data
      ensures unique && Ascending(old(data)) ==>
                && data == SeriesModel.Insert(merge, old(data), Entry(timestamp, value))
                && Ascending(data)
                && ToMap(data) == Add(merge, ToMap(old(data)), Entry(timestamp, value))
      ensures !unique ==> multiset(data) == multiset(old(data)) + multiset{Entry(timestamp, value)}
      ensures !unique && InOrder(old(data)) ==> InOrder(data)
    {
      var index := Search(timestamp);
      if unique && Ascending(data) {
        InsertAtPlace(merge, data, Entry(timestamp, value), index);
        InsertIsAdd(merge, data, Entry(timestamp, value));
      } else if !unique {
        PlacedInOrder(data, Entry(timestamp, value), index);
      }
      if unique && index < |data| && data[index].t == timestamp {
        var newData := merge(data[index].v, value, timestamp);
        data := data[index := Entry(timestamp, newData)];
      } else {
        data := data[..index] + [Entry(timestamp, value)] + data[index..];
      }
    }

    method ConsistencyCheck() returns (ok: bool)
      ensures ok <==> (if unique then Ascending(data) else InOrder(data))
                      && (data != [] ==> if unique then lowest < data[0].t else lowest <= data[0].t)
    {
      var curTimestamp := lowest;
      for index := 0 to |data|
        invariant curTimestamp == if index == 0 then lowest else data[index - 1].t
        invariant if unique then Ascending(data[..index]) else InOrder(data[..index])
        invariant index > 0 ==> if unique then lowest < data[0].t else lowest <= data[0].t
      {
        if !unique && curTimestamp > data[index].t {
          return false;
        } else if unique && curTimestamp >= data[index].t {
          return false;
        }
        curTimestamp := data[index].t;
      }
      assert data[..|data|] == data;
      return true;
    }

    /** consistencyFix; `sorted` is what the library's sort made of the list. */
    method ConsistencyFix(sorted: seq<Entry<V>>)
      requires SortOf(sorted, data)
      modifies this`data
      ensures data == if unique then Fix(merge, sorted) else sorted
    {
      data := sorted;
      if unique {
        var indexToDelete: seq<nat> := [];
        var index := 1;
        ghost var gone: set<nat> := {};
        if data != [] {
          FixFirst(merge, sorted);
        }
        while index < |data|
          invariant 1 <= index && |data| == |sorted| && (data != [] ==> index <= |data|)
          invariant data != [] ==> Merged(merge, sorted, data, index, Positions(indexToDelete))
          invariant data == [] ==> indexToDelete == []
          invariant forall i :: 0 <= i < |indexToDelete| ==> indexToDelete[i] < index - 1
          invariant forall i, j :: 0 <= i < j < |indexToDelete| ==> indexToDelete[i] < indexToDelete[j]
        {
          ghost var before, was := data, Positions(indexToDelete);
          if data[index - 1].t == data[index].t {
            data := data[index := Entry(data[index].t, merge(data[index].v, data[index - 1].v, data[index].t))];
            indexToDelete := indexToDelete + [index - 1];
            assert Positions(indexToDelete) == was + {index - 1};
          }
          MergedStep(merge, sorted, before, index, was);
          index := index + 1;
        }
        if data != [] {
          assert data[..|data|] == data && sorted[..|data|] == sorted;
        }
        DeleteAll(indexToDelete);
      }
    }

    /** Deletes the positions, last one first. */
    method DeleteAll(list: seq<nat>)
      requires forall i, j :: 0 <= i < j < |list| ==> list[i] < list[j]
      requires forall i :: 0 <= i < |list| ==> list[i] < |data|
      modifies this`data
      ensures data == Drop(old(data), Positions(list))
    {
      var n := |list|;
      assert list[..n] == list;
      while n > 0
        invariant n <= |list| && forall i :: 0 <= i < n ==> list[i] < |data|
        invariant Drop(data, Positions(list[..n])) == Drop(old(data), Positions(list))
      {
        var d := list[n - 1];
        assert list[..n] == list[..n - 1] + [d];
        assert Positions(list[..n]) == Positions(list[..n - 1]) + {d};
        DropGreatest(data, Positions(list[..n - 1]), d);
        data := data[..d] + data[d + 1..];
        n := n - 1;
      }
      assert Positions(list[..0]) == {};
      DropNothing(data);
    }
  }

  /** The merging loop before position `index`: without the positions noted, the entries before it are the
      repaired beginning of the list, and they end with the entry just before it. */
  ghost predicate Merged<V>(merge: Merge<V>, sorted: seq<Entry<V>>, data: seq<Entry<V>>, index: nat, gone: set<nat>) {
    && 1 <= index <= |data| == |sorted| && data[index..] == sorted[index..]
    && (forall x :: x in gone ==> x < index - 1)
    && Drop(data[..index], gone) == Fix(merge, sorted[..index])
    && data[index - 1].t == sorted[index - 1].t
  }

  lemma FixFirst<V>(merge: Merge<V>, sorted: seq<Entry<V>>)
    requires sorted != []
    ensures Merged(merge, sorted, sorted, 1, {})
  {
    assert sorted[..1][..0] == [];
    assert Fix(merge, sorted[..1]) == FixStep(merge, Fix(merge, sorted[..1][..0]), sorted[0]);
    assert Drop(sorted[..1], {}) == Drop(sorted[..1][..0], {}) + [sorted[0]];
  }

  lemma MergedStep<V>(merge: Merge<V>, sorted: seq<Entry<V>>, data: seq<Entry<V>>, index: nat, gone: set<nat>)
    requires Merged(merge, sorted, data, index, gone) && index < |data|
    ensures if data[index - 1].t == data[index].t
            then Merged(merge, sorted,
                        data[index := Entry(data[index].t, merge(data[index].v, data[index - 1].v, data[index].t))],
                        index + 1, gone + {index - 1})
            else Merged(merge, sorted, data, index + 1, gone)
  {
    MergedEnds(merge, sorted, data, index, gone);
    if data[index - 1].t == data[index].t {
      DropMerged(data, index, gone, Entry(data[index].t, merge(data[index].v, data[index - 1].v, data[index].t)));
    } else {
      DropKept(data, index, gone);
    }
  }

  /** The next entry is the next of the sorted list, and the repaired beginning ends with the entry before it. */
  lemma MergedEnds<V>(merge: Merge<V>, sorted: seq<Entry<V>>, data: seq<Entry<V>>, index: nat, gone: set<nat>)
    requires Merged(merge, sorted, data, index, gone) && index < |data|
    ensures data[index] == sorted[index] && data[index + 1..] == sorted[index + 1..]
    ensures Fix(merge, sorted[..index]) == Drop(data[..index - 1], gone) + [data[index - 1]]
    ensures Fix(merge, sorted[..index + 1]) == FixStep(merge, Fix(merge, sorted[..index]), sorted[index])
  {
    assert data[index] == data[index..][0] == sorted[index..][0] == sorted[index];
    assert data[index + 1..] == data[index..][1..] == sorted[index..][1..] == sorted[index + 1..];
    assert data[..index][..index - 1] == data[..index - 1];
    assert sorted[..index + 1][..index] == sorted[..index];
  }

  lemma DropKept<V>(data: seq<Entry<V>>, index: nat, gone: set<nat>)
    requires index < |data| && index !in gone
    ensures Drop(data[..index + 1], gone) == Drop(data[..index], gone) + [data[index]]
  {
    assert data[..index + 1][..index] == data[..index];
  }

  /** The entry that has taken in the one before it, with that one to go. */
  lemma DropMerged<V>(data: seq<Entry<V>>, index: nat, gone: set<nat>, e: Entry<V>)
    requires 0 < index < |data| && forall x :: x in gone ==> x < index - 1
    ensures Drop(data[index := e][..index + 1], gone + {index - 1}) == Drop(data[..index - 1], gone) + [e]
    ensures data[index := e][index + 1..] == data[index + 1..]
  {
    var next := data[index := e];
    DropKept(next, index, gone + {index - 1});
    assert next[..index] == data[..index];
    assert data[..index][..index - 1] == data[..index - 1];
    DropBeyond(data[..index - 1], gone, index - 1);
  }
}
