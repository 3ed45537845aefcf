/** The accounting of the cache: every collection's size is the sum over its entries and the cache's size
the sum over its collections; and what one collector run does.
 */
module CacheSizes {
  import opened Wrappers
  import opened OrderedMap
  import opened CacheModel

  ghost predicate CollectionOk<P>(col: Collection<P>) {
    && Distinct(col.values)
    && col.size == Sum(col.values)
    && forall e :: e in col.values ==> e.1.size >= 0
  }

  ghost predicate AllOk<P>(data: seq<Collection<P>>) {
    forall c :: 0 <= c < |data| ==> CollectionOk(data[c])
  }

  ghost predicate SizesOk<P>(s: State<P>) {
    && s.size == Total(s.data)
    && AllOk(s.data)
  }

  lemma {:induction false} SumNonNegative<P>(m: OMap<string, Entry<P>>)
    requires forall e :: e in m ==> e.1.size >= 0
    ensures Sum(m) >= 0
  {
    if m != [] {
      SumNonNegative(m[1..]);
    }
  }

  lemma {:induction false} TotalNonNegative<P>(data: seq<Collection<P>>)
    requires forall c :: 0 <= c < |data| ==> CollectionOk(data[c])
    ensures Total(data) >= 0
  {
    if data != [] {
      SumNonNegative(data[0].values);
      TotalNonNegative(data[1..]);
    }
  }

  lemma {:induction false} LookupMember<P>(m: OMap<string, Entry<P>>, k: string)
    requires Has(m, k)
    ensures (k, Lookup(m, k).value) in m
  {
    if m[0].0 != k {
      LookupMember(m[1..], k);
    }
  }

  // ---- Segments other than the collector

  /** Replacing one collection, with its change of size carried over to the cache. */
  lemma ReplaceKeepsSizes<P>(s: State<P>, c: nat, col: Collection<P>)
    requires SizesOk(s) && c < |s.data|
    ensures SizesOk(Updated(s, c, col).(size := s.size - s.data[c].size + col.size)) <==> CollectionOk(col)
  {
    TotalUpdate(s.data, c, col);
    var t := Updated(s, c, col);
    assert t.data[c] == col;
  }

  lemma StoreKeepsCollection<P>(col: Collection<P>, k: string, e: Entry<P>)
    requires CollectionOk(col) && e.size >= 0
    ensures CollectionOk(col.(values := Put(Delete(col.values, k), k, e),
                              size := col.size + (e.size - SizeAt(Lookup(col.values, k)))))
  {
    DeleteLooksUp(col.values, k);
    SumDelete(col.values, k);
    PutLooksUp(Delete(col.values, k), k, e);
    SumPut(Delete(col.values, k), k, e);
  }

  /** A manual set keeps the sums, except with the type reserved for fetches: that call deletes the entry
      before it fails, and leaves the sizes wrong exactly when the entry had one. */
  lemma SetKeepsSizes<P>(s: State<P>, c: nat, k: string, p: P, kind: Kind, now: nat)
    requires SizesOk(s)
    ensures SizesOk(Set(s, c, k, p, kind, now)) <==>
            (kind != AsFetching || c >= |s.data| || SizeAt(Lookup(s.data[c].values, k)) == 0)
  {
    if c < |s.data| {
      var col := s.data[c];
      ReplaceKeepsSizes(s, c, Set(s, c, k, p, kind, now).data[c]);
      if kind == AsFetching {
        DeleteLooksUp(col.values, k);
        SumDelete(col.values, k);
      } else {
        var size := if kind == AsValue then col.getSize(p) else 8;
        var content := if kind == AsValue then Value(p) else Failure(p);
        StoreKeepsCollection(col, k, Entry(content, size, now + col.timeoutMs));
      }
    }
  }

  lemma PutKeepsCollection<P>(col: Collection<P>, m: OMap<string, Entry<P>>, k: string, e: Entry<P>)
    requires CollectionOk(col)
    requires m == col.values || m == Delete(col.values, k)
    requires e.size == SizeAt(Lookup(col.values, k))
    ensures CollectionOk(col.(values := Put(m, k, e)))
  {
    DeleteLooksUp(col.values, k);
    SumDelete(col.values, k);
    PutLooksUp(m, k, e);
    SumPut(m, k, e);
    if Has(col.values, k) {
      LookupMember(col.values, k);
    }
  }

  lemma UpdatedKeepsSizes<P>(s: State<P>, c: nat, col: Collection<P>)
    requires SizesOk(s) && c < |s.data| && CollectionOk(col) && col.size == s.data[c].size
    ensures SizesOk(Updated(s, c, col))
  {
    ReplaceKeepsSizes(s, c, col);
  }

  lemma GetInstantKeepsSizes<P>(s: State<P>, c: nat, k: string, now: nat)
    requires SizesOk(s)
    ensures SizesOk(GetInstant(s, c, k, now))
  {
    if Peek(s, c, k, now).Hit? {
      var col := s.data[c];
      var e := Lookup(col.values, k).value;
      PutKeepsCollection(col, Delete(col.values, k), k, e);
      UpdatedKeepsSizes(s, c, col.(values := Put(Delete(col.values, k), k, e)));
    }
  }

  lemma GetKeepsSizes<P>(s: State<P>, q: Caller, c: nat, k: string, now: nat)
    requires SizesOk(s)
    ensures SizesOk(Get(s, q, c, k, now))
  {
    GetInstantKeepsSizes(s, c, k, now);
    if Peek(s, c, k, now).Miss? {
      var col := s.data[c];
      var e := Entry(Fetching(q), SizeAt(Lookup(col.values, k)), -1);
      PutKeepsCollection(col, col.values, k, e);
      UpdatedKeepsSizes(s, c, col.(values := Put(col.values, k, e)));
    }
  }

  lemma SetDirtyKeepsSizes<P>(s: State<P>, c: nat, k: string)
    requires SizesOk(s)
    ensures SizesOk(SetDirty(s, c, k))
  {
    if c < |s.data| && Has(s.data[c].values, k) {
      var col := s.data[c];
      var e := Lookup(col.values, k).value.(timeout := -1);
      PutKeepsCollection(col, col.values, k, e);
      UpdatedKeepsSizes(s, c, col.(values := Put(col.values, k, e)));
    }
  }

  // ---- The collector

  /** The entries one collector run does not consider expired, in Map order. */
  function Unexpired<P>(m: OMap<string, Entry<P>>, now: nat): OMap<string, Entry<P>> {
    if m == [] then []
    else if Expired(m[0].1, now) then Unexpired(m[1..], now)
    else [m[0]] + Unexpired(m[1..], now)
  }

  lemma RemovedOk<P>(col: Collection<P>, i: nat)
    requires CollectionOk(col) && i < |col.values|
    ensures CollectionOk(Removed(col, i))
  {
    CutIsDelete(col.values, i);
    LookupAt(col.values, i);
    DeleteLooksUp(col.values, col.values[i].0);
    SumDelete(col.values, col.values[i].0);
  }

  lemma {:induction false} ExpireKeepsOptions<P>(col: Collection<P>, total: int, i: nat, now: nat)
    requires i <= |col.values|
    ensures var r := Expire(col, total, i, now);
            (r.0.timeoutMs, r.0.getSize) == (col.timeoutMs, col.getSize)
    decreases |col.values| - i
  {
    if i < |col.values| {
      if Expired(col.values[i].1, now) {
        ExpireKeepsOptions(Removed(col, i), total - col.values[i].1.size, i, now);
      } else {
        ExpireKeepsOptions(col, total, i + 1, now);
      }
    }
  }

  lemma {:induction false} EvictKeepsOptions<P>(col: Collection<P>, total: int, maxSize: int)
    ensures var r := Evict(col, total, maxSize);
            (r.0.timeoutMs, r.0.getSize) == (col.timeoutMs, col.getSize)
    decreases |col.values|
  {
    if total > maxSize && |col.values| > 0 {
      EvictKeepsOptions(Removed(col, 0), total - col.values[0].1.size, maxSize);
    }
  }

  lemma {:induction false} ExpireKeepsOk<P>(col: Collection<P>, total: int, i: nat, now: nat)
    requires CollectionOk(col) && i <= |col.values|
    ensures var r := Expire(col, total, i, now);
            && CollectionOk(r.0)
            && r.1 == total - col.size + r.0.size <= total
    decreases |col.values| - i
  {
    if i < |col.values| {
      if Expired(col.values[i].1, now) {
        RemovedSmaller(col, i);
        ExpireKeepsOk(Removed(col, i), total - col.values[i].1.size, i, now);
      } else {
        ExpireKeepsOk(col, total, i + 1, now);
      }
    }
  }

  lemma RemovedSmaller<P>(col: Collection<P>, i: nat)
    requires CollectionOk(col) && i < |col.values|
    ensures CollectionOk(Removed(col, i)) && Removed(col, i).size <= col.size
  {
    assert col.values[i] in col.values;
    RemovedOk(col, i);
  }

  /** The pass keeps exactly the unexpired entries, in order. */
  lemma {:induction false} ExpireMeaning<P>(col: Collection<P>, total: int, i: nat, now: nat)
    requires i <= |col.values|
    ensures Expire(col, total, i, now).0.values == col.values[..i] + Unexpired(col.values[i..], now)
    decreases |col.values| - i
  {
    if i < |col.values| {
      if Expired(col.values[i].1, now) {
        var next := Removed(col, i);
        assert next.values[..i] == col.values[..i] && next.values[i..] == col.values[i..][1..];
        ExpireMeaning(next, total - col.values[i].1.size, i, now);
      } else {
        assert col.values[i + 1..] == col.values[i..][1..];
        ExpireMeaning(col, total, i + 1, now);
      }
    }
  }

  lemma {:induction false} EvictKeepsOk<P>(col: Collection<P>, total: int, maxSize: int)
    requires CollectionOk(col)
    ensures var r := Evict(col, total, maxSize);
            && CollectionOk(r.0)
            && r.1 == total - col.size + r.0.size <= total
    decreases |col.values|
  {
    if total > maxSize && |col.values| > 0 {
      assert col.values[0] in col.values;
      RemovedOk(col, 0);
      EvictKeepsOk(Removed(col, 0), total - col.values[0].1.size, maxSize);
    }
  }

  /** The eviction drops a prefix and stops as soon as the limit is met. */
  lemma {:induction false} EvictMeaning<P>(col: Collection<P>, total: int, maxSize: int) returns (d: nat)
    ensures d <= |col.values| && Evict(col, total, maxSize).0.values == col.values[d..]
    ensures d == |col.values| || Evict(col, total, maxSize).1 <= maxSize
    decreases |col.values|
  {
    if total > maxSize && |col.values| > 0 {
      var next := Removed(col, 0);
      assert next.values == col.values[1..];
      d := EvictMeaning(next, total - col.values[0].1.size, maxSize);
      assert next.values[d..] == col.values[d + 1..];
      d := d + 1;
    } else {
      d := 0;
    }
  }

  /** Without its first `j` entries alone the cache would still be over its limit. */
  ghost predicate StillOver<P>(m: OMap<string, Entry<P>>, total: int, maxSize: int, j: nat)
    requires j <= |m|
  {
    total - Sum(m[..j]) > maxSize
  }

  ghost predicate AllStillOver<P>(m: OMap<string, Entry<P>>, total: int, maxSize: int, d: nat)
    requires d <= |m|
  {
    forall j :: 0 <= j < d ==> StillOver(m, total, maxSize, j)
  }

  /** Each entry is evicted while the cache is over its limit. */
  lemma {:induction false} EvictNeeded<P>(col: Collection<P>, total: int, maxSize: int, d: nat)
    requires d <= |col.values| && |Evict(col, total, maxSize).0.values| == |col.values| - d
    ensures AllStillOver(col.values, total, maxSize, d)
    decreases |col.values|
  {
    if d > 0 {
      var next := Removed(col, 0);
      var size := col.values[0].1.size;
      assert next.values == col.values[1..];
      EvictShrinks(next, total - size, maxSize);
      EvictNeeded(next, total - size, maxSize, d - 1);
      forall j | 0 <= j < d
        ensures StillOver(col.values, total, maxSize, j)
      {
        if j > 0 {
          assert StillOver(next.values, total - size, maxSize, j - 1);
          assert col.values[..j][1..] == next.values[..j - 1];
        }
      }
    }
  }

  lemma {:induction false} EvictShrinks<P>(col: Collection<P>, total: int, maxSize: int)
    ensures |Evict(col, total, maxSize).0.values| <= |col.values|
    decreases |col.values|
  {
    if total > maxSize && |col.values| > 0 {
      EvictShrinks(Removed(col, 0), total - col.values[0].1.size, maxSize);
    }
  }

  /** One collection after a collector run, when the cache held `total` as its turn came: the unexpired
      entries without their first `d`, each of those evicted while the cache was still over its limit. */
  ghost predicate Collected<P>(col: Collection<P>, total: int, maxSize: int, now: nat, d: nat,
                               after: Collection<P>)
  {
    var kept := Unexpired(col.values, now);
    && d <= |kept| && after.values == kept[d..]
    && AllStillOver(kept, Sum(kept) + (total - col.size), maxSize, d)
    && (d == |kept| || total - col.size + after.size <= maxSize)
    && CollectionOk(after) && after.size <= col.size
    && (after.timeoutMs, after.getSize) == (col.timeoutMs, col.getSize)
  }

  lemma CollectOneMeaning<P>(col: Collection<P>, total: int, maxSize: int, now: nat) returns (d: nat)
    requires CollectionOk(col)
    ensures var r := CollectOne(col, total, maxSize, now);
            && Collected(col, total, maxSize, now, d, r.0)
            && r.1 == total - col.size + r.0.size <= total
  {
    var kept := KeptOnly(col, total, now);
    d := EvictsEnd(kept, kept.size + (total - col.size), maxSize);
  }

  lemma EvictsEnd<P>(kept: Collection<P>, total: int, maxSize: int) returns (d: nat)
    requires CollectionOk(kept)
    ensures var r := Evict(kept, total, maxSize);
            && d <= |kept.values| && r.0.values == kept.values[d..] && AllStillOver(kept.values, total, maxSize, d)
            && (d == |kept.values| || r.1 <= maxSize)
            && CollectionOk(r.0) && r.1 == total - kept.size + r.0.size <= total
            && (r.0.timeoutMs, r.0.getSize) == (kept.timeoutMs, kept.getSize)
  {
    EvictKeepsOk(kept, total, maxSize);
    EvictKeepsOptions(kept, total, maxSize);
    d := EvictMeaning(kept, total, maxSize);
    EvictNeeded(kept, total, maxSize, d);
  }

  lemma KeptOnly<P>(col: Collection<P>, total: int, now: nat) returns (kept: Collection<P>)
    requires CollectionOk(col)
    ensures CollectionOk(kept) && kept.size <= col.size && kept.values == Unexpired(col.values, now)
    ensures (kept.timeoutMs, kept.getSize) == (col.timeoutMs, col.getSize)
    ensures Expire(col, total, 0, now) == (kept, kept.size + (total - col.size))
  {
    ExpireKeepsOk(col, total, 0, now);
    ExpireKeepsOptions(col, total, 0, now);
    ExpireMeaning(col, total, 0, now);
    kept := Expire(col, total, 0, now).0;
    assert col.values[0..] == col.values;
  }

  lemma {:induction false} CollectFromLength<P>(data: seq<Collection<P>>, c: nat, total: int, maxSize: int, now: nat)
    requires c <= |data|
    ensures |CollectFrom(data, c, total, maxSize, now).0| == |data|
    decreases |data| - c
  {
    if c < |data| {
      var one := CollectOne(data[c], total, maxSize, now);
      CollectFromLength(data[c := one.0], c + 1, one.1, maxSize, now);
    }
  }

  lemma {:induction false} CollectKeepsOptions<P>(data: seq<Collection<P>>, c: nat, total: int, maxSize: int,
                                                  now: nat, i: nat)
    requires c <= |data| && i < |data|
    ensures var r := CollectFrom(data, c, total, maxSize, now);
            |r.0| == |data| && (r.0[i].timeoutMs, r.0[i].getSize) == (data[i].timeoutMs, data[i].getSize)
    decreases |data| - c
  {
    if c < |data| {
      var kept := Expire(data[c], total, 0, now);
      ExpireKeepsOptions(data[c], total, 0, now);
      EvictKeepsOptions(kept.0, kept.1, maxSize);
      var one := CollectOne(data[c], total, maxSize, now);
      CollectKeepsOptions(data[c := one.0], c + 1, one.1, maxSize, now, i);
    }
  }

  /** One collection's turn. */
  lemma CollectTurn<P>(data: seq<Collection<P>>, c: nat, total: int, maxSize: int, now: nat)
    requires c < |data| && total == Total(data) && AllOk(data)
    ensures var one := CollectOne(data[c], total, maxSize, now);
            var next := data[c := one.0];
            && AllOk(next) && one.1 == Total(next) <= total
            && (one.1 <= maxSize || one.0.values == [])
  {
    var d := CollectOneMeaning(data[c], total, maxSize, now);
    var one := CollectOne(data[c], total, maxSize, now);
    TotalUpdate(data, c, one.0);
  }

  lemma {:induction false} CollectFromTotal<P>(data: seq<Collection<P>>, c: nat, total: int, maxSize: int, now: nat)
    requires c <= |data| && total == Total(data) && AllOk(data)
    ensures var r := CollectFrom(data, c, total, maxSize, now);
            && |r.0| == |data| && r.0[..c] == data[..c]
            && AllOk(r.0) && r.1 == Total(r.0) <= total
    decreases |data| - c
  {
    if c < |data| {
      CollectTurn(data, c, total, maxSize, now);
      var one := CollectOne(data[c], total, maxSize, now);
      CollectFromTotal(data[c := one.0], c + 1, one.1, maxSize, now);
      var r := CollectFrom(data, c, total, maxSize, now);
      assert r.0[..c] == r.0[..c + 1][..c];
    }
  }

  /** Either the limit is met, or every collection from the first one processed has been emptied. */
  lemma {:induction false} CollectFromLimit<P>(data: seq<Collection<P>>, c: nat, total: int, maxSize: int, now: nat)
    requires c <= |data| && total == Total(data) && AllOk(data)
    ensures var r := CollectFrom(data, c, total, maxSize, now);
            |r.0| == |data| && (r.1 <= maxSize || forall i :: c <= i < |data| ==> r.0[i].values == [])
    decreases |data| - c
  {
    if c < |data| {
      CollectTurn(data, c, total, maxSize, now);
      var one := CollectOne(data[c], total, maxSize, now);
      CollectFromTotal(data[c := one.0], c + 1, one.1, maxSize, now);
      CollectFromLimit(data[c := one.0], c + 1, one.1, maxSize, now);
      var r := CollectFrom(data, c, total, maxSize, now);
      assert r.0[c] == r.0[..c + 1][c];
    }
  }

  lemma {:induction false} CollectFromAt<P>(data: seq<Collection<P>>, c: nat, total: int, maxSize: int, now: nat,
                                            i: nat)
    returns (d: nat)
    requires c <= i < |data| && total == Total(data) && AllOk(data)
    ensures var r := CollectFrom(data, c, total, maxSize, now);
            && |r.0| == |data|
            && Collected(data[i], Total(r.0[..i] + data[i..]), maxSize, now, d, r.0[i])
    decreases |data| - c
  {
    CollectTurn(data, c, total, maxSize, now);
    var one := CollectOne(data[c], total, maxSize, now);
    var next := data[c := one.0];
    CollectFromTotal(data, c, total, maxSize, now);
    CollectFromTotal(next, c + 1, one.1, maxSize, now);
    var r := CollectFrom(data, c, total, maxSize, now);
    if i == c {
      d := CollectOneMeaning(data[c], total, maxSize, now);
      assert r.0[c] == r.0[..c + 1][c] == one.0;
      assert r.0[..c] + data[c..] == data;
    } else {
      d := CollectFromAt(next, c + 1, one.1, maxSize, now, i);
      assert next[i..] == data[i..];
    }
  }

  lemma CollectKeepsSizes<P>(s: State<P>, now: nat)
    requires SizesOk(s)
    ensures SizesOk(Collect(s, now))
  {
    CollectFromTotal(s.data, 0, s.size, s.maxSize, now);
  }

  lemma {:induction false} NothingLeft<P>(data: seq<Collection<P>>)
    requires forall c :: 0 <= c < |data| ==> CollectionOk(data[c]) && data[c].values == []
    ensures Total(data) == 0
  {
    if data != [] {
      NothingLeft(data[1..]);
    }
  }

  lemma {:induction false} UnexpiredIffKept<P>(m: OMap<string, Entry<P>>, now: nat, e: (string, Entry<P>))
    ensures e in Unexpired(m, now) <==> e in m && (e.1.timeout <= 0 || e.1.timeout >= now)
  {
    if m != [] {
      UnexpiredIffKept(m[1..], now, e);
    }
  }

  /** The pass over a collection removes exactly the entries whose time is up. */
  lemma ExpiredGone<P>(col: Collection<P>, total: int, now: nat)
    ensures forall e :: e in Expire(col, total, 0, now).0.values <==>
              e in col.values && (e.1.timeout <= 0 || e.1.timeout >= now)
  {
    ExpireMeaning(col, total, 0, now);
    assert col.values[0..] == col.values;
    forall e
      ensures e in Unexpired(col.values, now) <==> e in col.values && (e.1.timeout <= 0 || e.1.timeout >= now)
    {
      UnexpiredIffKept(col.values, now, e);
    }
  }

  /** One collector run ends within the limit and leaves no expired entry. */
  lemma CollectBounds<P>(s: State<P>, now: nat)
    requires SizesOk(s)
    ensures var t := Collect(s, now);
            && t.size <= (if s.maxSize > 0 then s.maxSize else 0)
            && t.size <= s.size
            && |t.data| == |s.data|
            && (forall c, e :: 0 <= c < |t.data| && e in t.data[c].values ==> e.1.timeout <= 0 || e.1.timeout >= now)
  {
    CollectKeepsSizes(s, now);
    CollectFromTotal(s.data, 0, s.size, s.maxSize, now);
    CollectFromLimit(s.data, 0, s.size, s.maxSize, now);
    var t := Collect(s, now);
    if t.size > s.maxSize {
      NothingLeft(t.data);
    }
    forall c, e | 0 <= c < |t.data| && e in t.data[c].values
      ensures e.1.timeout <= 0 || e.1.timeout >= now
    {
      UnexpiredIffKept(s.data[c].values, now, e);
      var d := CollectFromAt(s.data, 0, s.size, s.maxSize, now, c);
      var kept := Unexpired(s.data[c].values, now);
      assert t.data[c].values == kept[d..];
      assert forall x :: x in kept[d..] ==> x in kept;
      assert e in kept;
    }
  }

  /** Each collection keeps its unexpired entries less a shortest sufficient prefix: its turn comes with
      the earlier collections already reduced and the later ones untouched, and no entry is evicted once
      the cache is within its limit. */
  lemma CollectSurvivors<P>(s: State<P>, now: nat, c: nat) returns (d: nat)
    requires SizesOk(s) && c < |s.data|
    ensures var t := Collect(s, now);
            && |t.data| == |s.data|
            && Collected(s.data[c], Total(t.data[..c] + s.data[c..]), s.maxSize, now, d, t.data[c])
  {
    d := CollectFromAt(s.data, 0, s.size, s.maxSize, now, c);
  }

  // ---- Every run

  /** A manual set with the type reserved for fetches hits an entry that has a size. */
  predicate Spoils<P>(s: State<P>, a: Step<P>) {
    && a.DoSet? && a.kind == AsFetching
    && a.c < |s.data| && SizeAt(Lookup(s.data[a.c].values, a.k)) != 0
  }

  /** A step keeps the sums if and only if it is not such a set. */
  lemma StepKeepsSizes<P>(s: State<P>, a: Step<P>)
    requires SizesOk(s) && Enabled(s, a)
    ensures SizesOk(Apply(s, a)) <==> !Spoils(s, a)
  {
    match a {
      case DoRegister(timeoutMs, getSize) => TotalAppend(s.data, Collection([], 0, timeoutMs, getSize));
      case DoSet(c, k, p, kind, now) => SetKeepsSizes(s, c, k, p, kind, now);
      case DoGetInstant(c, k, now) => GetInstantKeepsSizes(s, c, k, now);
      case DoGet(q, c, k, now) => GetKeepsSizes(s, q, c, k, now);
      case DoResume(q, now) => GetKeepsSizes(s, q, s.calls[q].c, s.calls[q].k, now);
      case DoComplete(q, p, ok, now) =>
        SetKeepsSizes(s, s.fetches[q].c, s.fetches[q].k, p, if ok then AsValue else AsError, now);
      case DoSetDirty(c, k) => SetDirtyKeepsSizes(s, c, k);
      case DoCollect(now) => CollectKeepsSizes(s, now);
    }
  }

  ghost predicate SizesOkAt<P>(maxSize: int, steps: seq<Step<P>>, i: nat)
    requires i <= |steps|
  {
    Run(maxSize, steps[..i]).Some? && SizesOk(Run(maxSize, steps[..i]).value)
  }

  predicate SpoilsAt<P>(maxSize: int, steps: seq<Step<P>>, i: nat)
    requires i < |steps|
  {
    Run(maxSize, steps[..i]).Some? && Spoils(Run(maxSize, steps[..i]).value, steps[i])
  }

  lemma {:induction false} SizesOkUpTo<P>(maxSize: int, steps: seq<Step<P>>, i: nat)
    requires Run(maxSize, steps).Some? && i <= |steps|
    requires forall j :: 0 <= j < i ==> !SpoilsAt(maxSize, steps, j)
    ensures SizesOkAt(maxSize, steps, i)
  {
    BeginningRuns(maxSize, steps, i);
    if i > 0 {
      SizesOkUpTo(maxSize, steps, i - 1);
      BeginningRuns(maxSize, steps, i - 1);
      assert !SpoilsAt(maxSize, steps, i - 1);
      StepKeepsSizes(Run(maxSize, steps[..i - 1]).value, steps[i - 1]);
    }
  }

  /** The sizes add up throughout a run, whatever the interleaving, if and only if no manual set with the type reserved
      for fetches hits an entry that has a size. */
  lemma RunKeepsSizesIff<P>(maxSize: int, steps: seq<Step<P>>)
    requires Run(maxSize, steps).Some?
    ensures (forall i :: 0 <= i <= |steps| ==> SizesOkAt(maxSize, steps, i))
            <==> forall i :: 0 <= i < |steps| ==> !SpoilsAt(maxSize, steps, i)
  {
    if forall i :: 0 <= i < |steps| ==> !SpoilsAt(maxSize, steps, i) {
      forall i | 0 <= i <= |steps|
        ensures SizesOkAt(maxSize, steps, i)
      {
        SizesOkUpTo(maxSize, steps, i);
      }
    }
    if forall i :: 0 <= i <= |steps| ==> SizesOkAt(maxSize, steps, i) {
      forall i | 0 <= i < |steps|
        ensures !SpoilsAt(maxSize, steps, i)
      {
        BeginningRuns(maxSize, steps, i);
        assert SizesOkAt(maxSize, steps, i) && SizesOkAt(maxSize, steps, i + 1);
        StepKeepsSizes(Run(maxSize, steps[..i]).value, steps[i]);
      }
    }
  }

  /** A run that leaves the cache with a size and no entry: a value of size one, then a reserved set of its key. */
  lemma SpoiledSizes<P>(maxSize: int, k: string, p: P) returns (steps: seq<Step<P>>, s: State<P>)
    ensures Run(maxSize, steps) == Some(s)
    ensures s.size == 1 && |s.data| == 1 && s.data[0].values == [] && !SizesOk(s)
  {
    steps, s := [], Init(maxSize);
    steps, s := Extend(maxSize, steps, s, DoRegister(1, (x: P) => 1));
    steps, s := Extend(maxSize, steps, s, DoSet(0, k, p, AsValue, 0));
    assert s.size == 1 && s.data[0].values == [(k, Entry(Value(p), 1, 1))];
    steps, s := Extend(maxSize, steps, s, DoSet(0, k, p, AsFetching, 0));
    assert s.data[0].values == [];
  }
}
