/** Time series as sequences of entries, the map from timestamps to merged values they stand for, and why
inserting entries one by one and repairing them in bulk come to the same series.
 */
module SeriesModel {
  datatype Entry<V> = Entry(t: real, v: V)

  type Merge<!V> = (V, V, real) -> V

  ghost predicate Ascending<V>(s: seq<Entry<V>>) {
    forall i, j :: 0 <= i < j < |s| ==> s[i].t < s[j].t
  }

  ghost predicate InOrder<V>(s: seq<Entry<V>>) {
    forall i, j :: 0 <= i < j < |s| ==> s[i].t <= s[j].t
  }

  ghost predicate Commutative<V(!new)>(merge: Merge<V>) {
    forall a, b, t :: merge(a, b, t) == merge(b, a, t)
  }

  ghost predicate Associative<V(!new)>(merge: Merge<V>) {
    forall a, b, c, t :: merge(merge(a, b, t), c, t) == merge(a, merge(b, c, t), t)
  }

  // ---- The series as a map

  function ToMap<V>(s: seq<Entry<V>>): map<real, V> {
    if s == [] then map[] else ToMap(s[1..])[s[0].t := s[0].v]
  }

  function Add<V>(merge: Merge<V>, m: map<real, V>, e: Entry<V>): map<real, V> {
    m[e.t := if e.t in m then merge(m[e.t], e.v, e.t) else e.v]
  }

  /** Every entry merged into the map in turn. */
  function AddAll<V>(merge: Merge<V>, m: map<real, V>, list: seq<Entry<V>>): map<real, V>
    decreases |list|
  {
    if list == [] then m else AddAll(merge, Add(merge, m, list[0]), list[1..])
  }

  lemma {:induction false} ToMapKeys<V>(s: seq<Entry<V>>, t: real)
    ensures t in ToMap(s) <==> exists i :: 0 <= i < |s| && s[i].t == t
  {
    if s != [] {
      ToMapKeys(s[1..], t);
      if exists i :: 0 <= i < |s[1..]| && s[1..][i].t == t {
        var i :| 0 <= i < |s[1..]| && s[1..][i].t == t;
        assert s[i + 1].t == t;
      }
      if exists i :: 0 <= i < |s| && s[i].t == t {
        var i :| 0 <= i < |s| && s[i].t == t;
        assert i == 0 || s[1..][i - 1].t == t;
      }
    }
  }

  /** Timestamps of an ascending series that follow its first one are not its first one. */
  lemma HeadNotInTail<V>(s: seq<Entry<V>>, t: real)
    requires Ascending(s) && s != [] && t <= s[0].t
    ensures t !in ToMap(s[1..])
  {
    ToMapKeys(s[1..], t);
  }

  lemma EmptyMap<V>(s: seq<Entry<V>>)
    ensures s == [] <==> ToMap(s) == map[]
  {
    if s != [] {
      assert s[0].t in ToMap(s);
    }
  }

  /** An ascending series is determined by its map. */
  lemma {:induction false} MapDetermines<V>(a: seq<Entry<V>>, b: seq<Entry<V>>)
    requires Ascending(a) && Ascending(b) && ToMap(a) == ToMap(b)
    ensures a == b
  {
    EmptyMap(a);
    EmptyMap(b);
    if a != [] {
      FirstsAgree(a, b);
      HeadNotInTail(a, a[0].t);
      HeadNotInTail(b, b[0].t);
      assert ToMap(a)[a[0].t] == a[0].v && ToMap(b)[b[0].t] == b[0].v;
      assert ToMap(a[1..]) == ToMap(a) - {a[0].t};
      assert ToMap(b[1..]) == ToMap(b) - {b[0].t};
      MapDetermines(a[1..], b[1..]);
    }
  }

  lemma FirstsAgree<V>(a: seq<Entry<V>>, b: seq<Entry<V>>)
    requires Ascending(a) && Ascending(b) && ToMap(a) == ToMap(b) && a != [] && b != []
    ensures a[0].t == b[0].t
  {
    assert a[0].t in ToMap(a) && b[0].t in ToMap(b);
    ToMapKeys(a, b[0].t);
    ToMapKeys(b, a[0].t);
  }

  // ---- Inserting

  /** insert on an ascending series of a unique kind. */
  function Insert<V>(merge: Merge<V>, s: seq<Entry<V>>, e: Entry<V>): seq<Entry<V>> {
    if s == [] || e.t < s[0].t then [e] + s
    else if s[0].t == e.t then [Entry(e.t, merge(s[0].v, e.v, e.t))] + s[1..]
    else [s[0]] + Insert(merge, s[1..], e)
  }

  function InsertAll<V>(merge: Merge<V>, s: seq<Entry<V>>, list: seq<Entry<V>>): seq<Entry<V>>
    decreases |list|
  {
    if list == [] then s else InsertAll(merge, Insert(merge, s, list[0]), list[1..])
  }

  lemma AscendingCons<V>(e: Entry<V>, s: seq<Entry<V>>)
    requires Ascending(s) && (s != [] ==> e.t < s[0].t)
    ensures Ascending([e] + s)
    ensures ToMap([e] + s) == ToMap(s)[e.t := e.v]
  {
    assert ([e] + s)[1..] == s;
    assert forall j :: 0 < j < |s| ==> s[0].t < s[j].t;
  }

  lemma {:induction false} InsertIsAdd<V>(merge: Merge<V>, s: seq<Entry<V>>, e: Entry<V>)
    requires Ascending(s)
    ensures Ascending(Insert(merge, s, e))
    ensures ToMap(Insert(merge, s, e)) == Add(merge, ToMap(s), e)
    ensures Insert(merge, s, e) != []
    ensures Insert(merge, s, e)[0].t == if s == [] || e.t < s[0].t then e.t else s[0].t
  {
    if s == [] || e.t < s[0].t {
      if s != [] {
        HeadNotInTail(s, e.t);
      }
      AscendingCons(e, s);
    } else if e.t == s[0].t {
      AscendingCons(Entry(e.t, merge(s[0].v, e.v, e.t)), s[1..]);
    } else {
      InsertIsAdd(merge, s[1..], e);
      AscendingCons(s[0], Insert(merge, s[1..], e));
    }
  }

  lemma {:induction false} InsertAllIsAddAll<V>(merge: Merge<V>, s: seq<Entry<V>>, list: seq<Entry<V>>)
    requires Ascending(s)
    ensures Ascending(InsertAll(merge, s, list))
    ensures ToMap(InsertAll(merge, s, list)) == AddAll(merge, ToMap(s), list)
    decreases |list|
  {
    if list != [] {
      InsertIsAdd(merge, s, list[0]);
      InsertAllIsAddAll(merge, Insert(merge, s, list[0]), list[1..]);
    }
  }

  // ---- The order of merging does not matter

  lemma MergesCommute<V(!new)>(merge: Merge<V>, x: V, a: V, b: V, t: real)
    requires Commutative(merge) && Associative(merge)
    ensures merge(merge(x, a, t), b, t) == merge(merge(x, b, t), a, t)
  {
    assert merge(merge(x, a, t), b, t) == merge(x, merge(a, b, t), t);
    assert merge(merge(x, b, t), a, t) == merge(x, merge(b, a, t), t);
  }

  lemma AddsSwap<V>(merge: Merge<V>, m: map<real, V>, d: Entry<V>, e: Entry<V>)
    requires d.t == e.t ==>
               if d.t in m then merge(merge(m[d.t], d.v, d.t), e.v, d.t) == merge(merge(m[d.t], e.v, d.t), d.v, d.t)
               else merge(d.v, e.v, d.t) == merge(e.v, d.v, d.t)
    ensures Add(merge, Add(merge, m, d), e) == Add(merge, Add(merge, m, e), d)
  {
  }

  lemma AddsCommute<V(!new)>(merge: Merge<V>, m: map<real, V>, d: Entry<V>, e: Entry<V>)
    requires Commutative(merge) && Associative(merge)
    ensures Add(merge, Add(merge, m, d), e) == Add(merge, Add(merge, m, e), d)
  {
    if d.t == e.t && d.t in m {
      MergesCommute(merge, m[d.t], d.v, e.v, d.t);
    }
    AddsSwap(merge, m, d, e);
  }

  lemma {:induction false} AddLater<V(!new)>(merge: Merge<V>, m: map<real, V>, list: seq<Entry<V>>, i: nat)
    requires Commutative(merge) && Associative(merge) && i < |list|
    ensures AddAll(merge, m, list) == AddAll(merge, Add(merge, m, list[i]), list[..i] + list[i + 1..])
    decreases |list|
  {
    var rest := list[..i] + list[i + 1..];
    if i == 0 {
      assert rest == list[1..];
    } else {
      AddLater(merge, Add(merge, m, list[0]), list[1..], i - 1);
      assert rest[1..] == list[1..][..i - 1] + list[1..][i..];
      AddsCommute(merge, m, list[0], list[i]);
    }
  }

  lemma RemoveMatch<T>(a: seq<T>, b: seq<T>, i: nat)
    requires multiset(a) == multiset(b) && a != [] && i < |b| && b[i] == a[0]
    ensures multiset(a[1..]) == multiset(b[..i] + b[i + 1..])
  {
    assert b == b[..i] + [b[i]] + b[i + 1..];
    assert multiset(b) == multiset(b[..i]) + multiset{b[i]} + multiset(b[i + 1..]);
    assert a == [a[0]] + a[1..];
    assert multiset(a) == multiset{a[0]} + multiset(a[1..]);
    assert multiset(a[1..]) == multiset(a) - multiset{a[0]};
    assert multiset(b[..i] + b[i + 1..]) == multiset(b[..i]) + multiset(b[i + 1..]) == multiset(b) - multiset{b[i]};
  }

  lemma {:induction false} AddAllPermutes<V(!new)>(merge: Merge<V>, m: map<real, V>, a: seq<Entry<V>>, b: seq<Entry<V>>)
    requires Commutative(merge) && Associative(merge) && multiset(a) == multiset(b)
    ensures AddAll(merge, m, a) == AddAll(merge, m, b)
    decreases |a|
  {
    assert |a| == |multiset(a)| == |multiset(b)| == |b|;
    if a != [] {
      assert a[0] in multiset(b);
      var i :| 0 <= i < |b| && b[i] == a[0];
      RemoveMatch(a, b, i);
      AddLater(merge, m, b, i);
      AddAllPermutes(merge, Add(merge, m, a[0]), a[1..], b[..i] + b[i + 1..]);
    }
  }

  // ---- Repairing

  /** The next entry of a sorted list takes in the merged one before it, if that has its timestamp. */
  function FixStep<V>(merge: Merge<V>, front: seq<Entry<V>>, e: Entry<V>): seq<Entry<V>> {
    if front != [] && front[|front| - 1].t == e.t
    then front[..|front| - 1] + [Entry(e.t, merge(e.v, front[|front| - 1].v, e.t))]
    else front + [e]
  }

  /** The merging of neighbours in a sorted list. */
  function Fix<V>(merge: Merge<V>, s: seq<Entry<V>>): seq<Entry<V>> {
    if s == [] then [] else FixStep(merge, Fix(merge, s[..|s| - 1]), s[|s| - 1])
  }

  lemma {:induction false} AddAllSplit<V>(merge: Merge<V>, m: map<real, V>, a: seq<Entry<V>>, e: Entry<V>)
    ensures AddAll(merge, m, a + [e]) == Add(merge, AddAll(merge, m, a), e)
    decreases |a|
  {
    if a == [] {
      assert a + [e] == [e];
    } else {
      assert (a + [e])[1..] == a[1..] + [e];
      AddAllSplit(merge, Add(merge, m, a[0]), a[1..], e);
    }
  }

  lemma {:induction false} ToMapEnd<V>(s: seq<Entry<V>>, e: Entry<V>)
    requires Ascending(s + [e])
    ensures ToMap(s + [e]) == ToMap(s)[e.t := e.v]
  {
    if s == [] {
      assert s + [e] == [e];
    } else {
      assert (s + [e])[1..] == s[1..] + [e];
      assert (s + [e])[0].t < (s + [e])[|s|].t;
      ToMapEnd(s[1..], e);
    }
  }

  /** Merging an entry with the last one of a series is adding it to the map. */
  lemma MergedEnd<V(!new)>(merge: Merge<V>, front: seq<Entry<V>>, e: Entry<V>)
    requires Ascending(front) && Commutative(merge) && front != [] && front[|front| - 1].t == e.t
    ensures var x := front[|front| - 1];
            var s := front[..|front| - 1] + [Entry(e.t, merge(e.v, x.v, e.t))];
            Ascending(s) && ToMap(s) == Add(merge, ToMap(front), e)
  {
    var init, x := front[..|front| - 1], front[|front| - 1];
    var y := Entry(e.t, merge(e.v, x.v, e.t));
    assert front == init + [x];
    ToMapEnd(init, x);
    var s := init + [y];
    assert forall i, j :: 0 <= i < j < |s| ==> s[i].t == front[i].t && s[j].t == front[j].t;
    ToMapEnd(init, y);
    assert merge(e.v, x.v, e.t) == merge(x.v, e.v, e.t);
  }

  lemma FixStepAdds<V(!new)>(merge: Merge<V>, front: seq<Entry<V>>, e: Entry<V>)
    requires Ascending(front) && Commutative(merge) && (front == [] || front[|front| - 1].t <= e.t)
    ensures var s := FixStep(merge, front, e);
            && Ascending(s) && s != [] && s[|s| - 1].t == e.t
            && ToMap(s) == Add(merge, ToMap(front), e)
  {
    if front != [] && front[|front| - 1].t == e.t {
      MergedEnd(merge, front, e);
    } else {
      assert forall i :: 0 <= i < |front| ==> front[i].t <= front[|front| - 1].t;
      ToMapEnd(front, e);
      ToMapKeys(front, e.t);
    }
  }

  lemma {:induction false} FixIsAddAll<V(!new)>(merge: Merge<V>, s: seq<Entry<V>>)
    requires InOrder(s) && Commutative(merge)
    ensures Ascending(Fix(merge, s))
    ensures if s == [] then Fix(merge, s) == []
            else Fix(merge, s) != [] && Fix(merge, s)[|Fix(merge, s)| - 1].t == s[|s| - 1].t
    ensures ToMap(Fix(merge, s)) == AddAll(merge, map[], s)
    decreases |s|
  {
    if s != [] {
      var init, e := s[..|s| - 1], s[|s| - 1];
      FixIsAddAll(merge, init);
      assert s == init + [e];
      assert init != [] ==> s[|s| - 2].t <= e.t;
      AddAllSplit(merge, map[], init, e);
      FixStepAdds(merge, Fix(merge, init), e);
    }
  }

  // ---- The two ways

  /** `sorted` is a result the library's sort may give for `list`. */
  ghost predicate SortOf<V>(sorted: seq<Entry<V>>, list: seq<Entry<V>>) {
    InOrder(sorted) && multiset(sorted) == multiset(list)
  }

  /** Whatever the order of insertion and whatever sort, both ways give the same series. */
  ghost predicate SameSeries<V(!new)>(merge: Merge<V>) {
    forall list, other, sorted: seq<Entry<V>> ::
      multiset(list) == multiset(other) && SortOf(sorted, other) ==>
        InsertAll(merge, [], list) == Fix(merge, sorted)
  }

  lemma InsertingIsRepairing<V(!new)>(merge: Merge<V>, list: seq<Entry<V>>, other: seq<Entry<V>>, sorted: seq<Entry<V>>)
    requires Commutative(merge) && Associative(merge)
    requires multiset(list) == multiset(other) && SortOf(sorted, other)
    ensures InsertAll(merge, [], list) == Fix(merge, sorted)
    ensures Ascending(Fix(merge, sorted))
  {
    InsertAllIsAddAll(merge, [], list);
    FixIsAddAll(merge, sorted);
    AddAllPermutes(merge, map[], list, sorted);
    MapDetermines(InsertAll(merge, [], list), Fix(merge, sorted));
  }

  lemma {:induction false} AddAllKeys<V>(merge: Merge<V>, m: map<real, V>, list: seq<Entry<V>>, t: real)
    requires t in AddAll(merge, m, list)
    ensures t in m || exists i :: 0 <= i < |list| && list[i].t == t
    decreases |list|
  {
    if list != [] && t != list[0].t {
      AddAllKeys(merge, Add(merge, m, list[0]), list[1..], t);
      if t !in m {
        var i :| 0 <= i < |list[1..]| && list[1..][i].t == t;
        assert list[i + 1].t == t;
      }
    }
  }

  /** Either way the series passes the consistency check, given timestamps above the least number. */
  lemma SeriesIsConsistent<V(!new)>(merge: Merge<V>, list: seq<Entry<V>>, lowest: real)
    requires forall i :: 0 <= i < |list| ==> lowest < list[i].t
    ensures var s := InsertAll(merge, [], list);
            Ascending(s) && (s != [] ==> lowest < s[0].t)
  {
    var s := InsertAll(merge, [], list);
    InsertAllIsAddAll(merge, [], list);
    if s != [] {
      assert s[0].t in ToMap(s);
      AddAllKeys(merge, map[], list, s[0].t);
    }
  }

  lemma InsertTwo<V>(merge: Merge<V>, t: real, a: V, b: V)
    ensures InsertAll(merge, [], [Entry(t, a), Entry(t, b)]) == [Entry(t, merge(a, b, t))]
    ensures Fix(merge, [Entry(t, a), Entry(t, b)]) == [Entry(t, merge(b, a, t))]
  {
    var s := [Entry(t, a), Entry(t, b)];
    assert s[1..] == [Entry(t, b)] && s[1..][1..] == [];
    assert Insert(merge, [], s[0]) == [Entry(t, a)];
    assert Insert(merge, [Entry(t, a)], s[1]) == [Entry(t, merge(a, b, t))];
    assert InsertAll(merge, [Entry(t, a)], s[1..]) == InsertAll(merge, [Entry(t, merge(a, b, t))], []);
    assert s[..1] == [Entry(t, a)] && s[..1][..0] == [];
    assert Fix(merge, s[..1]) == [Entry(t, a)];
  }

  lemma InsertThree<V>(merge: Merge<V>, t: real, a: V, b: V, c: V)
    ensures InsertAll(merge, [], [Entry(t, a), Entry(t, b), Entry(t, c)]) == [Entry(t, merge(merge(a, b, t), c, t))]
    ensures Fix(merge, [Entry(t, a), Entry(t, b), Entry(t, c)]) == [Entry(t, merge(c, merge(b, a, t), t))]
  {
    var s := [Entry(t, a), Entry(t, b), Entry(t, c)];
    assert s[1..] == [Entry(t, b), Entry(t, c)] && s[1..][1..] == [Entry(t, c)] && s[1..][1..][1..] == [];
    var x, y := [Entry(t, merge(a, b, t))], [Entry(t, merge(merge(a, b, t), c, t))];
    assert Insert(merge, [], s[0]) == [Entry(t, a)];
    assert Insert(merge, [Entry(t, a)], Entry(t, b)) == x;
    assert Insert(merge, x, Entry(t, c)) == y;
    assert InsertAll(merge, x, s[1..][1..]) == InsertAll(merge, y, []);
    assert InsertAll(merge, [Entry(t, a)], s[1..]) == InsertAll(merge, x, s[1..][1..]);
    assert s[..2] == [Entry(t, a), Entry(t, b)];
    InsertTwo(merge, t, a, b);
  }

  lemma SameSeriesAt<V(!new)>(merge: Merge<V>, list: seq<Entry<V>>, sorted: seq<Entry<V>>)
    requires SameSeries(merge) && SortOf(sorted, list)
    ensures InsertAll(merge, [], list) == Fix(merge, sorted)
  {
  }

  lemma SameSeriesCommutes<V(!new)>(merge: Merge<V>, t: real, a: V, b: V)
    requires SameSeries(merge)
    ensures merge(a, b, t) == merge(b, a, t)
  {
    var s := [Entry(t, a), Entry(t, b)];
    SameSeriesAt(merge, s, s);
    InsertTwo(merge, t, a, b);
  }

  lemma ReversedIsSort<V>(t: real, a: V, b: V, c: V)
    ensures SortOf([Entry(t, c), Entry(t, b), Entry(t, a)], [Entry(t, a), Entry(t, b), Entry(t, c)])
  {
    ThreeReversed(Entry(t, a), Entry(t, b), Entry(t, c));
  }

  lemma ThreeReversed<T>(x: T, y: T, z: T)
    ensures multiset([z, y, x]) == multiset([x, y, z])
  {
  }

  lemma SameSeriesAssociates<V(!new)>(merge: Merge<V>, t: real, a: V, b: V, c: V)
    requires SameSeries(merge)
    ensures merge(merge(a, b, t), c, t) == merge(a, merge(b, c, t), t)
  {
    ReversedIsSort(t, a, b, c);
    SameSeriesAt(merge, [Entry(t, a), Entry(t, b), Entry(t, c)], [Entry(t, c), Entry(t, b), Entry(t, a)]);
    InsertThree(merge, t, a, b, c);
    InsertThree(merge, t, c, b, a);
  }

  /** The exact condition: the two ways agree on all entries just when the merge is commutative and associative.
      The default merge, which keeps its first argument, is not. */
  lemma SameSeriesIff<V(!new)>(merge: Merge<V>)
    ensures SameSeries(merge) <==> Commutative(merge) && Associative(merge)
  {
    if Commutative(merge) && Associative(merge) {
      forall list, other, sorted: seq<Entry<V>> | multiset(list) == multiset(other) && SortOf(sorted, other)
        ensures InsertAll(merge, [], list) == Fix(merge, sorted)
      {
        InsertingIsRepairing(merge, list, other, sorted);
      }
    } else if SameSeries(merge) {
      forall a, b, t
        ensures merge(a, b, t) == merge(b, a, t)
      {
        SameSeriesCommutes(merge, t, a, b);
      }
      forall a, b, c, t
        ensures merge(merge(a, b, t), c, t) == merge(a, merge(b, c, t), t)
      {
        SameSeriesAssociates(merge, t, a, b, c);
      }
    }
  }

  lemma DefaultMergeDiffers(t: real)
    ensures InsertAll((a: int, b: int, x: real) => a, [], [Entry(t, 1), Entry(t, 2)]) == [Entry(t, 1)]
    ensures Fix((a: int, b: int, x: real) => a, [Entry(t, 1), Entry(t, 2)]) == [Entry(t, 2)]
  {
    InsertTwo((a: int, b: int, x: real) => a, t, 1, 2);
  }
}
