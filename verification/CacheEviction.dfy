/** Which entries a collector run evicts, read off the state before it: in every collection it leaves the longest end of
the unexpired entries that fits beside the collections after it.
 */
module CacheEviction {
  import opened Wrappers
  import opened OrderedMap
  import opened CacheModel
  import opened CacheSizes

  ghost predicate EntriesOk<P>(m: OMap<string, Entry<P>>) {
    Distinct(m) && forall e :: e in m ==> e.1.size >= 0
  }

  ghost predicate AllEntriesOk<P>(data: seq<Collection<P>>) {
    forall c :: 0 <= c < |data| ==> EntriesOk(data[c].values)
  }

  /** The sizes of all entries. */
  function Weight<P>(data: seq<Collection<P>>): int {
    if data == [] then 0 else Sum(data[0].values) + Weight(data[1..])
  }

  /** What the cache's size counts beyond its entries: nothing, when the sizes add up. */
  function Surplus<P>(s: State<P>): int {
    s.size - Weight(s.data)
  }

  /** What is left for a collection beside the ones after it. */
  function Room<P>(s: State<P>, c: nat): int
    requires c < |s.data|
  {
    s.maxSize - Surplus(s) - Weight(s.data[c + 1..])
  }

  /** The longest end that fits. */
  function Fitting<P>(m: OMap<string, Entry<P>>, room: int): OMap<string, Entry<P>> {
    if m == [] || Sum(m) <= room then m else Fitting(m[1..], room)
  }

  /** The unexpired entry `j` of the collection and those after it do not fit. */
  predicate Crowded<P>(s: State<P>, now: nat, c: nat, j: nat) {
    && c < |s.data| && j < |Unexpired(s.data[c].values, now)|
    && Sum(Unexpired(s.data[c].values, now)[j..]) > Room(s, c)
  }

  // ---- Weights

  lemma {:induction false} WeightIsTotal<P>(data: seq<Collection<P>>)
    requires AllOk(data)
    ensures Weight(data) == Total(data)
  {
    if data != [] {
      WeightIsTotal(data[1..]);
    }
  }

  /** When the sizes add up, what is left is the limit less the sizes of the collections after it. */
  lemma RoomOfSizes<P>(s: State<P>, c: nat)
    requires SizesOk(s) && c < |s.data|
    ensures Room(s, c) == s.maxSize - Total(s.data[c + 1..])
  {
    WeightIsTotal(s.data);
    WeightIsTotal(s.data[c + 1..]);
  }

  lemma {:induction false} WeightUpdate<P>(data: seq<Collection<P>>, c: nat, col: Collection<P>)
    requires c < |data|
    ensures Weight(data[c := col]) == Weight(data) - Sum(data[c].values) + Sum(col.values)
  {
    if c > 0 {
      assert data[c := col][1..] == data[1..][c - 1 := col];
      WeightUpdate(data[1..], c - 1, col);
    }
  }

  lemma {:induction false} WeightAfter<P>(data: seq<Collection<P>>, c: nat)
    requires AllEntriesOk(data) && c < |data|
    ensures Weight(data) >= Sum(data[c].values) + Weight(data[c + 1..])
    ensures EmptyBefore(data, c) ==> Weight(data) == Sum(data[c].values) + Weight(data[c + 1..])
  {
    if c > 0 {
      WeightAfter(data[1..], c - 1);
      assert data[1..][c..] == data[c + 1..];
      SumNonNegative(data[0].values);
      assert EmptyBefore(data, c) ==> EmptyBefore(data[1..], c - 1) && data[0].values == [];
    }
  }

  // ---- Ends that fit

  lemma {:induction false} SumOfEnd<P>(m: OMap<string, Entry<P>>, j: nat)
    requires EntriesOk(m) && j <= |m|
    ensures 0 <= Sum(m[j..]) <= Sum(m)
  {
    if j > 0 {
      assert m[0] in m && m[1..][j - 1..] == m[j..];
      SumOfEnd(m[1..], j - 1);
    } else {
      SumNonNegative(m);
      assert m[0..] == m;
    }
  }

  lemma {:induction false} FittingIsEnd<P>(m: OMap<string, Entry<P>>, room: int)
    ensures |Fitting(m, room)| <= |m| && Fitting(m, room) == m[|m| - |Fitting(m, room)|..]
  {
    if m != [] && Sum(m) > room {
      FittingIsEnd(m[1..], room);
    }
  }

  /** An entry belongs to the longest end that fits if and only if it fits together with the ones after it. */
  lemma {:induction false} FitsIff<P>(m: OMap<string, Entry<P>>, room: int, j: nat)
    requires EntriesOk(m) && j < |m|
    ensures j >= |m| - |Fitting(m, room)| <==> Sum(m[j..]) <= room
  {
    if Sum(m) <= room {
      SumOfEnd(m, j);
    } else if j > 0 {
      FitsIff(m[1..], room, j - 1);
      assert m[1..][j - 1..] == m[j..];
    } else {
      FittingIsEnd(m[1..], room);
      assert m[0..] == m;
    }
  }

  /** The eviction leaves the longest end that fits. */
  lemma {:induction false} EvictIsFitting<P>(col: Collection<P>, total: int, maxSize: int)
    ensures Evict(col, total, maxSize).0.values == Fitting(col.values, maxSize - (total - Sum(col.values)))
    ensures Evict(col, total, maxSize).1 == total - Sum(col.values) + Sum(Evict(col, total, maxSize).0.values)
    decreases |col.values|
  {
    if total > maxSize && |col.values| > 0 {
      assert Removed(col, 0).values == col.values[1..];
      EvictIsFitting(Removed(col, 0), total - col.values[0].1.size, maxSize);
    }
  }

  lemma SumOfCut<P>(m: OMap<string, Entry<P>>, i: nat)
    requires i < |m|
    ensures Sum(m[..i] + m[i + 1..]) == Sum(m) - m[i].1.size
  {
    assert m == m[..i] + m[i..];
    SumSplit(m[..i], m[i..]);
    SumSplit(m[..i], m[i + 1..]);
    assert m[i..][1..] == m[i + 1..];
  }

  lemma {:induction false} ExpireTotal<P>(col: Collection<P>, total: int, i: nat, now: nat)
    requires i <= |col.values|
    ensures Expire(col, total, i, now).1 == total - Sum(col.values) + Sum(Expire(col, total, i, now).0.values)
    decreases |col.values| - i
  {
    if i < |col.values| {
      if Expired(col.values[i].1, now) {
        SumOfCut(col.values, i);
        ExpireTotal(Removed(col, i), total - col.values[i].1.size, i, now);
      } else {
        ExpireTotal(col, total, i + 1, now);
      }
    }
  }

  lemma {:induction false} UnexpiredHas<P>(m: OMap<string, Entry<P>>, now: nat, k: string)
    requires Has(Unexpired(m, now), k)
    ensures Has(m, k)
  {
    if m != [] && m[0].0 != k {
      if !Expired(m[0].1, now) {
        assert Unexpired(m, now)[0] == m[0] && Unexpired(m, now)[1..] == Unexpired(m[1..], now);
      }
      UnexpiredHas(m[1..], now, k);
    }
  }

  lemma {:induction false} UnexpiredOk<P>(m: OMap<string, Entry<P>>, now: nat)
    requires EntriesOk(m)
    ensures EntriesOk(Unexpired(m, now)) && Sum(Unexpired(m, now)) <= Sum(m)
  {
    if m != [] {
      assert m[0] in m;
      UnexpiredOk(m[1..], now);
      if !Expired(m[0].1, now) {
        assert Unexpired(m, now)[0] == m[0] && Unexpired(m, now)[1..] == Unexpired(m[1..], now);
        if Has(Unexpired(m[1..], now), m[0].0) {
          UnexpiredHas(m[1..], now, m[0].0);
        }
      }
    }
  }

  lemma {:induction false} EndOk<P>(m: OMap<string, Entry<P>>, d: nat)
    requires EntriesOk(m) && d <= |m|
    ensures EntriesOk(m[d..])
  {
    if d > 0 {
      assert m[1..][d - 1..] == m[d..];
      EndOk(m[1..], d - 1);
    } else {
      assert m[0..] == m;
    }
  }

  // ---- A collector run

  lemma FittingOk<P>(m: OMap<string, Entry<P>>, room: int)
    requires EntriesOk(m)
    ensures EntriesOk(Fitting(m, room)) && 0 <= Sum(Fitting(m, room)) <= Sum(m)
    ensures Sum(Fitting(m, room)) <= room || Fitting(m, room) == []
  {
    FittingIsEnd(m, room);
    var d := |m| - |Fitting(m, room)|;
    EndOk(m, d);
    SumOfEnd(m, d);
    if d < |m| {
      FitsIff(m, room, d);
    }
  }

  /** One collection's turn: the longest end of its unexpired entries that fits beside all else there is. */
  lemma CollectOneIsFitting<P>(col: Collection<P>, total: int, maxSize: int, now: nat)
    requires EntriesOk(col.values)
    ensures var r := CollectOne(col, total, maxSize, now);
            && r.0.values == Fitting(Unexpired(col.values, now), maxSize - (total - Sum(col.values)))
            && r.1 == total - Sum(col.values) + Sum(r.0.values)
  {
    var kept := Expire(col, total, 0, now);
    ExpireMeaning(col, total, 0, now);
    assert col.values[0..] == col.values;
    assert kept.0.values == Unexpired(col.values, now);
    ExpireTotal(col, total, 0, now);
    EvictIsFitting(kept.0, kept.1, maxSize);
  }

  ghost predicate EmptyBefore<P>(data: seq<Collection<P>>, c: nat)
    requires c <= |data|
  {
    forall b :: 0 <= b < c ==> data[b].values == []
  }

  /** The turns from collection `c` on, when the limit is met or nothing is left before it. */
  lemma {:induction false} CollectFromIsFitting<P>(data: seq<Collection<P>>, c: nat, total: int, maxSize: int,
                                                   now: nat, i: nat)
    requires AllEntriesOk(data) && c <= i < |data|
    requires total <= maxSize || EmptyBefore(data, c)
    ensures i < |CollectFrom(data, c, total, maxSize, now).0|
    ensures CollectFrom(data, c, total, maxSize, now).0[i].values
            == Fitting(Unexpired(data[i].values, now), maxSize - (total - Weight(data)) - Weight(data[i + 1..]))
    decreases |data| - c
  {
    var one := CollectOne(data[c], total, maxSize, now);
    var next := data[c := one.0];
    TurnIsFitting(data, c, total, maxSize, now);
    if i == c {
      CollectFromEarlier(next, c + 1, one.1, maxSize, now, c);
    } else {
      WeightUpdate(data, c, one.0);
      CollectFromIsFitting(next, c + 1, one.1, maxSize, now, i);
      assert next[i + 1..] == data[i + 1..];
    }
  }

  /** The turn of collection `c`: once the limit is met nothing more is evicted, and before that all earlier
      collections are empty. */
  lemma TurnIsFitting<P>(data: seq<Collection<P>>, c: nat, total: int, maxSize: int, now: nat)
    requires AllEntriesOk(data) && c < |data|
    requires total <= maxSize || EmptyBefore(data, c)
    ensures var one := CollectOne(data[c], total, maxSize, now);
            && one.0.values
               == Fitting(Unexpired(data[c].values, now), maxSize - (total - Weight(data)) - Weight(data[c + 1..]))
            && one.1 == total - Sum(data[c].values) + Sum(one.0.values)
            && AllEntriesOk(data[c := one.0])
            && (one.1 <= maxSize || EmptyBefore(data[c := one.0], c + 1))
  {
    CollectOneIsFitting(data[c], total, maxSize, now);
    WeightAfter(data, c);
    UnexpiredOk(data[c].values, now);
    FittingOk(Unexpired(data[c].values, now), maxSize - (total - Sum(data[c].values)));
  }

  /** Later turns leave the earlier collections alone. */
  lemma {:induction false} CollectFromEarlier<P>(data: seq<Collection<P>>, c: nat, total: int, maxSize: int,
                                                 now: nat, i: nat)
    requires i < c <= |data|
    ensures |CollectFrom(data, c, total, maxSize, now).0| == |data|
    ensures CollectFrom(data, c, total, maxSize, now).0[i] == data[i]
    decreases |data| - c
  {
    if c < |data| {
      var one := CollectOne(data[c], total, maxSize, now);
      CollectFromEarlier(data[c := one.0], c + 1, one.1, maxSize, now, i);
    }
  }

  /** No entry whose time is up is left, whatever state the run began in. */
  lemma {:induction false} CollectFromInTime<P>(data: seq<Collection<P>>, c: nat, total: int, maxSize: int, now: nat,
                                                i: nat, e: (string, Entry<P>))
    requires c <= i < |data| && |CollectFrom(data, c, total, maxSize, now).0| == |data|
    requires e in CollectFrom(data, c, total, maxSize, now).0[i].values
    ensures e.1.timeout <= 0 || e.1.timeout >= now
    decreases |data| - c
  {
    var kept := Expire(data[c], total, 0, now);
    var one := CollectOne(data[c], total, maxSize, now);
    if i == c {
      CollectFromEarlier(data[c := one.0], c + 1, one.1, maxSize, now, c);
      ExpiredGone(data[c], total, now);
      var d := EvictMeaning(kept.0, kept.1, maxSize);
      assert e in kept.0.values[d..];
      assert e in kept.0.values;
    } else {
      CollectFromInTime(data[c := one.0], c + 1, one.1, maxSize, now, i, e);
    }
  }

  /** What a collector run leaves of a collection, whatever happened before it. */
  lemma CollectIsFitting<P>(s: State<P>, now: nat, c: nat)
    requires AllEntriesOk(s.data) && c < |s.data|
    ensures |Collect(s, now).data| == |s.data|
    ensures Collect(s, now).data[c].values == Fitting(Unexpired(s.data[c].values, now), Room(s, c))
  {
    CollectFromLength(s.data, 0, s.size, s.maxSize, now);
    CollectFromIsFitting(s.data, 0, s.size, s.maxSize, now, c);
  }

  /** An unexpired entry survives a collector run if and only if it is not crowded out. */
  lemma SurvivesIff<P>(s: State<P>, now: nat, c: nat, j: nat)
    requires AllEntriesOk(s.data) && c < |s.data| && j < |Unexpired(s.data[c].values, now)|
    ensures |Collect(s, now).data| == |s.data|
    ensures Unexpired(s.data[c].values, now)[j] in Collect(s, now).data[c].values <==> !Crowded(s, now, c, j)
  {
    var kept := Unexpired(s.data[c].values, now);
    CollectIsFitting(s, now, c);
    UnexpiredOk(s.data[c].values, now);
    FittingIsEnd(kept, Room(s, c));
    FitsIff(kept, Room(s, c), j);
    InEndIff(kept, |kept| - |Fitting(kept, Room(s, c))|, j);
  }

  /** The sizes of the entries whose time is not up. */
  function LiveSize<P>(m: OMap<string, Entry<P>>, now: nat): int {
    if m == [] then 0
    else (if m[0].1.timeout <= 0 || m[0].1.timeout >= now then m[0].1.size else 0) + LiveSize(m[1..], now)
  }

  lemma {:induction false} LiveSizeIsSum<P>(m: OMap<string, Entry<P>>, now: nat)
    ensures Sum(Unexpired(m, now)) == LiveSize(m, now)
  {
    if m != [] {
      LiveSizeIsSum(m[1..], now);
      if !Expired(m[0].1, now) {
        assert Unexpired(m, now)[0] == m[0] && Unexpired(m, now)[1..] == Unexpired(m[1..], now);
      }
    }
  }

  lemma {:induction false} UnexpiredSplit<P>(m: OMap<string, Entry<P>>, now: nat, i: nat)
    requires i <= |m|
    ensures Unexpired(m, now) == Unexpired(m[..i], now) + Unexpired(m[i..], now)
  {
    if i > 0 {
      assert m[..i][1..] == m[1..][..i - 1] && m[1..][i - 1..] == m[i..];
      UnexpiredSplit(m[1..], now, i - 1);
    } else {
      assert m[0..] == m;
    }
  }

  /** The same for every entry, in numbers: it survives if and only if its time is not up and it fits, with the entries
      after it whose time is not up either and with all entries of the collections after its own, into the limit less
      what the cache counts beyond its entries. */
  lemma SurvivesInNumbers<P>(s: State<P>, now: nat, c: nat, i: nat)
    requires AllEntriesOk(s.data) && c < |s.data| && i < |s.data[c].values|
    ensures |Collect(s, now).data| == |s.data|
    ensures var m := s.data[c].values;
            m[i] in Collect(s, now).data[c].values <==>
              && (m[i].1.timeout <= 0 || m[i].1.timeout >= now)
              && LiveSize(m[i..], now) + Weight(s.data[c + 1..]) <= s.maxSize - (s.size - Weight(s.data))
  {
    var m := s.data[c].values;
    var kept := Unexpired(m, now);
    CollectIsFitting(s, now, c);
    FittingIsEnd(kept, Room(s, c));
    UnexpiredIffKept(m, now, m[i]);
    if m[i].1.timeout <= 0 || m[i].1.timeout >= now {
      var j := |Unexpired(m[..i], now)|;
      UnexpiredSplit(m, now, i);
      assert kept[j..] == Unexpired(m[i..], now);
      assert Unexpired(m[i..], now)[0] == m[i];
      LiveSizeIsSum(m[i..], now);
      SurvivesIff(s, now, c, j);
    } else {
      assert m[i] !in kept;
    }
  }

  lemma OneEntry<P>(e: (string, Entry<P>), now: nat)
    ensures Sum([e]) == e.1.size
    ensures LiveSize([e], now) == if e.1.timeout <= 0 || e.1.timeout >= now then e.1.size else 0
  {
    assert [e][1..] == [];
  }

  lemma WeightOfTwo<P>(data: seq<Collection<P>>)
    requires |data| == 2
    ensures Weight(data[1..]) == Sum(data[1].values)
    ensures Weight(data) == Sum(data[0].values) + Sum(data[1].values)
  {
    assert data[1..] == [data[1]] && data[1..][1..] == [];
  }

  /** An entry can go although all entries whose time is not up fit: an expired one of a later collection still counts
      when the turn of its collection comes. */
  lemma ExpiredTakesRoom<P>(k: string, p: P) returns (steps: seq<Step<P>>, s: State<P>)
    ensures Run(1, steps) == Some(s) && |s.data| == 2
    ensures LiveSize(s.data[0].values, 5) + LiveSize(s.data[1].values, 5) == s.maxSize == 1
    ensures |s.data[0].values| == 1 && s.data[0].values[0].1.timeout >= 5
    ensures |Collect(s, 5).data| == 2 && s.data[0].values[0] !in Collect(s, 5).data[0].values
  {
    steps, s := [], Init(1);
    steps, s := Extend(1, steps, s, DoRegister(10, (x: P) => 1));
    steps, s := Extend(1, steps, s, DoRegister(1, (x: P) => 1));
    steps, s := Extend(1, steps, s, DoSet(0, k, p, AsValue, 0));
    steps, s := Extend(1, steps, s, DoSet(1, k, p, AsValue, 0));
    RunKeepsEntries(1, steps);
    var x, y := (k, Entry(Value(p), 1, 10)), (k, Entry(Value(p), 1, 1));
    assert s.data[0].values == [x] && s.data[1].values == [y] && s.size == 2;
    OneEntry(x, 5);
    OneEntry(y, 5);
    assert [x][0..] == [x];
    WeightOfTwo(s.data);
    SurvivesInNumbers(s, 5, 0, 0);
  }

  lemma InEndIff<P>(m: OMap<string, Entry<P>>, d: nat, j: nat)
    requires EntriesOk(m) && d <= |m| && j < |m|
    ensures m[j] in m[d..] <==> j >= d
  {
    if j >= d {
      assert m[d..][j - d] == m[j];
    } else if m[j] in m[d..] {
      var i :| 0 <= i < |m[d..]| && m[d..][i] == m[j];
      DistinctKeys(m, j, d + i);
    }
  }

  lemma {:induction false} DistinctKeys<P>(m: OMap<string, Entry<P>>, i: nat, j: nat)
    requires Distinct(m) && i < j < |m|
    ensures m[i].0 != m[j].0
  {
    if i == 0 {
      LookupAt(m[1..], j - 1);
    } else {
      DistinctKeys(m[1..], i - 1, j - 1);
    }
  }

  // ---- Every run

  lemma PutOk<P>(m: OMap<string, Entry<P>>, k: string, e: Entry<P>)
    requires EntriesOk(m) && e.size >= 0
    ensures EntriesOk(Put(m, k, e)) && EntriesOk(Delete(m, k)) && EntriesOk(Put(Delete(m, k), k, e))
  {
    PutLooksUp(m, k, e);
    DeleteLooksUp(m, k);
    PutLooksUp(Delete(m, k), k, e);
  }

  lemma SizeAtOk<P>(m: OMap<string, Entry<P>>, k: string)
    requires EntriesOk(m)
    ensures SizeAt(Lookup(m, k)) >= 0
  {
    if Has(m, k) {
      LookupMember(m, k);
    }
  }

  lemma SetKeepsEntries<P>(s: State<P>, c: nat, k: string, p: P, kind: Kind, now: nat)
    requires AllEntriesOk(s.data)
    ensures AllEntriesOk(Set(s, c, k, p, kind, now).data)
  {
    if c < |s.data| {
      var col := s.data[c];
      var size := if kind == AsValue then col.getSize(p) else 8;
      var content := if kind == AsValue then Value(p) else Failure(p);
      PutOk(col.values, k, Entry(content, size, now + col.timeoutMs));
    }
  }

  lemma GetKeepsEntries<P>(s: State<P>, q: Caller, c: nat, k: string, now: nat)
    requires AllEntriesOk(s.data)
    ensures AllEntriesOk(GetInstant(s, c, k, now).data) && AllEntriesOk(Get(s, q, c, k, now).data)
  {
    if c < |s.data| {
      var m := s.data[c].values;
      SizeAtOk(m, k);
      PutOk(m, k, Entry(Fetching(q), SizeAt(Lookup(m, k)), -1));
      if Has(m, k) {
        PutOk(m, k, Lookup(m, k).value);
      }
    }
  }

  lemma CollectKeepsEntries<P>(s: State<P>, now: nat)
    requires AllEntriesOk(s.data)
    ensures AllEntriesOk(Collect(s, now).data)
  {
    CollectFromLength(s.data, 0, s.size, s.maxSize, now);
    forall c | 0 <= c < |s.data|
      ensures EntriesOk(Collect(s, now).data[c].values)
    {
      CollectIsFitting(s, now, c);
      UnexpiredOk(s.data[c].values, now);
      FittingOk(Unexpired(s.data[c].values, now), Room(s, c));
    }
  }

  lemma StepKeepsEntries<P>(s: State<P>, a: Step<P>)
    requires AllEntriesOk(s.data) && Enabled(s, a)
    ensures AllEntriesOk(Apply(s, a).data)
  {
    match a {
      case DoRegister(_, _) =>
      case DoSet(c, k, p, kind, now) => SetKeepsEntries(s, c, k, p, kind, now);
      case DoGetInstant(c, k, now) => GetKeepsEntries(s, 0, c, k, now);
      case DoGet(q, c, k, now) => GetKeepsEntries(s, q, c, k, now);
      case DoResume(q, now) => GetKeepsEntries(s, q, s.calls[q].c, s.calls[q].k, now);
      case DoComplete(q, p, ok, now) =>
        SetKeepsEntries(s, s.fetches[q].c, s.fetches[q].k, p, if ok then AsValue else AsError, now);
      case DoSetDirty(c, k) =>
        if c < |s.data| && Has(s.data[c].values, k) {
          SizeAtOk(s.data[c].values, k);
          PutOk(s.data[c].values, k, Lookup(s.data[c].values, k).value.(timeout := -1));
        }
      case DoCollect(now) => CollectKeepsEntries(s, now);
    }
  }

  /** In every run, sets with the reserved type included, keys are distinct and no entry has a negative size. */
  lemma {:induction false} RunKeepsEntries<P>(maxSize: int, steps: seq<Step<P>>)
    requires Run(maxSize, steps).Some?
    ensures AllEntriesOk(Run(maxSize, steps).value.data)
    decreases |steps|
  {
    if steps != [] {
      RunKeepsEntries(maxSize, steps[..|steps| - 1]);
      StepKeepsEntries(Run(maxSize, steps[..|steps| - 1]).value, steps[|steps| - 1]);
    }
  }
}
