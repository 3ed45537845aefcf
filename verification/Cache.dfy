/** The cache object as the code has it: its fields are updated in place, one method per stretch of code
between two awaits, each doing to the fields what the state machine's segment does to the state.
 */
module Cache {
  import opened OrderedMap
  import opened CacheModel
  import opened CacheSizes
  import opened CacheEviction

  class Cache<P> {
    var data: seq<Collection<P>>
    var size: int
    const maxSize: int
    var fetches: map<Caller, Fetch>
    var calls: map<Caller, CallState<P>>

    constructor (maxSize: int)
      ensures Model() == Init(maxSize)
    {
      this.maxSize := maxSize;
      data, size, fetches, calls := [], 0, map[], map[];
    }

    ghost function Model(): State<P>
      reads this
    {
      State(data, size, maxSize, fetches, calls)
    }

    method Register(timeoutMs: int, getSize: P -> nat)
      modifies this
      ensures Model() == CacheModel.Register(old(Model()), timeoutMs, getSize)
    {
      data := data + [Collection([], 0, timeoutMs, getSize)];
    }

    /** False when the call ends in an exception. */
    method Set(c: nat, k: string, p: P, kind: Kind, now: nat) returns (ok: bool)
      modifies this
      ensures Model() == CacheModel.Set(old(Model()), c, k, p, kind, now)
      ensures ok == (c < |old(data)| && kind != AsFetching)
    {
      if c >= |data| {
        return false;
      }
      var col := data[c];
      var found := Lookup(col.values, k);
      var sizeDiff := if found.Some? then -found.value.size else 0;
      data := data[c := col.(values := Delete(col.values, k))];
      if kind == AsFetching {
        return false;
      }
      var entrySize := 8;
      if kind == AsValue {
        entrySize := col.getSize(p);
      }
      var content := if kind == AsValue then Value(p) else Failure(p);
      sizeDiff := sizeDiff + entrySize;
      data := data[c := data[c].(
        values := Put(data[c].values, k, Entry(content, entrySize, now + col.timeoutMs)),
        size := data[c].size + sizeDiff)];
      size := size + sizeDiff;
      return true;
    }

    method GetInstant(c: nat, k: string, now: nat) returns (r: Instant<P>)
      modifies this`data
      ensures Model() == CacheModel.GetInstant(old(Model()), c, k, now)
      ensures r == Peek(old(Model()), c, k, now)
      ensures r == NoCollection <==> c >= |old(data)|
      ensures c < |old(data)| ==>
                match Lookup(old(data)[c].values, k)
                case None => r == Miss
                case Some(e) =>
                  if e.timeout < now then r == Miss
                  else if e.content.Failure? then r == Raise(e.content.p)
                  else r == Hit(e.content)
    {
      if c >= |data| {
        return NoCollection;
      }
      var col := data[c];
      var found := Lookup(col.values, k);
      if found.None? || found.value.timeout < now {
        return Miss;
      }
      if found.value.content.Failure? {
        return Raise(found.value.content.p);
      }
      data := data[c := col.(values := Put(Delete(col.values, k), k, found.value))];
      return Hit(found.value.content);
    }

    /** get up to its next await. */
    method Get(q: Caller, c: nat, k: string, now: nat)
      modifies this
      ensures Model() == CacheModel.Get(old(Model()), q, c, k, now)
    {
      var instant := GetInstant(c, k, now);
      match instant {
        case NoCollection => calls := calls[q := Rejected];
        case Hit(content) => calls := calls[q := Returned(content)];
        case Raise(p) => calls := calls[q := Thrown(p)];
        case Miss =>
          var col := data[c];
          var found := Lookup(col.values, k);
          if found.Some? && found.value.content.Fetching? {
            var f := found.value.content.owner;
            calls := calls[q := Waiting(c, k)];
            if f in fetches {
              fetches := fetches[f := fetches[f].(waiters := fetches[f].waiters + [q])];
            }
          } else {
            var entry := Entry(Fetching(q), if found.Some? then found.value.size else 0, -1);
            data := data[c := col.(values := Put(col.values, k, entry))];
            fetches := fetches[q := Fetch(c, k, [])];
            calls := calls[q := Fetcher];
          }
      }
    }

    /** The end of get, once the awaited fetch has answered. */
    method Complete(f: Caller, p: P, ok: bool, now: nat)
      requires f in fetches
      modifies this
      ensures Model() == CacheModel.Complete(old(Model()), f, p, ok, now)
      ensures f !in fetches && f in calls && calls[f] == if ok then Returned(Value(p)) else Thrown(p)
    {
      var job := fetches[f];
      var _ := Set(job.c, job.k, p, if ok then AsValue else AsError, now);
      calls := Woke(calls, job);
      fetches := fetches - {f};
      calls := calls[f := if ok then Returned(Value(p)) else Thrown(p)];
    }

    method SetDirty(c: nat, k: string)
      modifies this`data
      ensures Model() == CacheModel.SetDirty(old(Model()), c, k)
    {
      if c < |data| {
        var found := Lookup(data[c].values, k);
        if found.Some? {
          data := data[c := data[c].(values := Put(data[c].values, k, found.value.(timeout := -1)))];
        }
      }
    }

    /** The collector's first loop over one collection. */
    method RemoveExpired(c: nat, now: nat) returns (count: nat, bytes: int)
      requires c < |data|
      modifies this`data, this`size
      ensures |data| == |old(data)| && data == old(data)[c := data[c]]
      ensures (data[c], size) == Expire(old(data)[c], old(size), 0, now)
      ensures forall e :: e in data[c].values <==>
                e in old(data)[c].values && (e.1.timeout <= 0 || e.1.timeout >= now)
      ensures count == |old(data)[c].values| - |data[c].values| && bytes == old(size) - size
    {
      count, bytes := 0, 0;
      var i := 0;
      while i < |data[c].values|
        invariant |data| == |old(data)| && data == old(data)[c := data[c]] && i <= |data[c].values|
        invariant Expire(data[c], size, i, now) == Expire(old(data)[c], old(size), 0, now)
        invariant count == |old(data)[c].values| - |data[c].values| && bytes == old(size) - size
        decreases |data[c].values| - i
      {
        var entry := data[c].values[i].1;
        if entry.timeout > 0 && entry.timeout < now {
          data := data[c := Removed(data[c], i)];
          size := size - entry.size;
          count, bytes := count + 1, bytes + entry.size;
        } else {
          i := i + 1;
        }
      }
      ExpiredGone(old(data)[c], old(size), now);
    }

    /** The collector's second loop over one collection. */
    method EvictOldest(c: nat) returns (count: nat, bytes: int)
      requires c < |data|
      modifies this`data, this`size
      ensures |data| == |old(data)| && data == old(data)[c := data[c]]
      ensures (data[c], size) == Evict(old(data)[c], old(size), maxSize)
      ensures count == |old(data)[c].values| - |data[c].values| && bytes == old(size) - size
    {
      count, bytes := 0, 0;
      while size > maxSize && |data[c].values| > 0
        invariant |data| == |old(data)| && data == old(data)[c := data[c]]
        invariant Evict(data[c], size, maxSize) == Evict(old(data)[c], old(size), maxSize)
        invariant count == |old(data)[c].values| - |data[c].values| && bytes == old(size) - size
        decreases |data[c].values|
      {
        var entry := data[c].values[0].1;
        data := data[c := Removed(data[c], 0)];
        size := size - entry.size;
        count, bytes := count + 1, bytes + entry.size;
      }
    }

    /** One run of the garbage collector. */
    method Collect(now: nat) returns (evictedCount: nat, evictedSize: int)
      modifies this`data, this`size
      ensures Model() == CacheModel.Collect(old(Model()), now)
      ensures evictedSize == old(size) - size
      ensures forall d, e :: 0 <= d < |data| && e in data[d].values ==> e.1.timeout <= 0 || e.1.timeout >= now
      ensures |data| == |old(data)| && evictedCount == Entries(old(data)) - Entries(data)
    {
      evictedCount, evictedSize := 0, 0;
      var c := 0;
      while c < |data|
        invariant c <= |data| == |old(data)|
        invariant CollectFrom(data, c, size, maxSize, now) == CollectFrom(old(data), 0, old(size), maxSize, now)
        invariant evictedSize == old(size) - size
        invariant evictedCount == Entries(old(data)) - Entries(data)
      {
        ghost var before := data;
        var expired, expiredBytes := RemoveExpired(c, now);
        var evicted, evictedBytes := EvictOldest(c);
        assert data == before[c := data[c]];
        EntriesUpdate(before, c, data[c]);
        evictedCount := evictedCount + expired + evicted;
        evictedSize := evictedSize + expiredBytes + evictedBytes;
        c := c + 1;
      }
      forall d, e | 0 <= d < |data| && e in data[d].values
        ensures e.1.timeout <= 0 || e.1.timeout >= now
      {
        CollectFromInTime(old(data), 0, old(size), maxSize, now, d, e);
      }
    }
  }

  /** The number of entries in all collections. */
  function Entries<P>(data: seq<Collection<P>>): nat {
    if data == [] then 0 else |data[0].values| + Entries(data[1..])
  }

  lemma {:induction false} EntriesUpdate<P>(data: seq<Collection<P>>, c: nat, col: Collection<P>)
    requires c < |data|
    ensures Entries(data[c := col]) == Entries(data) - |data[c].values| + |col.values|
  {
    if c > 0 {
      assert data[c := col][1..] == data[1..][c - 1 := col];
      EntriesUpdate(data[1..], c - 1, col);
    }
  }
}
