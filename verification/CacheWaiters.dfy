/** Who waits for whom: a get call that waits is always in the list of a fetch that is still in flight. */
module CacheWaiters {
  import opened Wrappers
  import opened OrderedMap
  import opened CacheModel
  import opened CacheSizes
  import opened CacheEviction

  function EntryAt<P>(s: State<P>, c: nat, k: string): Option<Entry<P>> {
    if c < |s.data| then Lookup(s.data[c].values, k) else None
  }

  /** The call whose fetching marker is the entry of this key. */
  function MarkerAt<P>(s: State<P>, c: nat, k: string): Option<Caller> {
    var e := EntryAt(s, c, k);
    if e.Some? && e.value.content.Fetching? then Some(e.value.content.owner) else None
  }

  ghost predicate KeysDistinct<P>(s: State<P>) {
    forall c :: 0 <= c < |s.data| ==> Distinct(s.data[c].values)
  }

  /** Call `q` is in the list of fetch `f`, which is in flight for this key. */
  predicate WaitsOn(fetches: map<Caller, Fetch>, q: Caller, c: nat, k: string, f: Caller) {
    f in fetches && fetches[f].c == c && fetches[f].k == k && q in fetches[f].waiters
  }

  /** A marker in the cache belongs to a fetch in flight for that key. */
  ghost predicate MarkersOk<P>(s: State<P>) {
    && KeysDistinct(s)
    && forall c: nat, k: string :: MarkerAt(s, c, k).Some? ==>
         var f := MarkerAt(s, c, k).value;
         && f in s.fetches && s.fetches[f].c == c && s.fetches[f].k == k
         && EntryAt(s, c, k).value.timeout == -1
  }

  /** The fetchers are the calls with a fetch in flight. */
  ghost predicate FetchersOk<P>(fetches: map<Caller, Fetch>, calls: map<Caller, CallState<P>>) {
    && (forall f :: f in fetches ==> f in calls && calls[f].Fetcher?)
    && (forall q :: q in calls && calls[q].Fetcher? ==> q in fetches)
  }

  ghost predicate Listed<P>(fetches: map<Caller, Fetch>, calls: map<Caller, CallState<P>>) {
    forall q :: q in calls && calls[q].Waiting? ==> exists f :: WaitsOn(fetches, q, calls[q].c, calls[q].k, f)
  }

  ghost predicate InList(fetches: map<Caller, Fetch>, f: Caller, q: Caller) {
    f in fetches && q in fetches[f].waiters
  }

  /** Only waiting calls are in a list, each in that of a fetch for its key and in no other. */
  ghost predicate OnlyWaiting<P>(fetches: map<Caller, Fetch>, calls: map<Caller, CallState<P>>) {
    && (forall f, q :: InList(fetches, f, q) ==> q in calls && calls[q] == Waiting(fetches[f].c, fetches[f].k))
    && (forall f, g, q :: InList(fetches, f, q) && InList(fetches, g, q) ==> f == g)
  }

  /** The lists of the fetches in flight hold exactly the waiting calls, each in one list. */
  ghost predicate ListsOk<P>(fetches: map<Caller, Fetch>, calls: map<Caller, CallState<P>>) {
    FetchersOk(fetches, calls) && Listed(fetches, calls) && OnlyWaiting(fetches, calls)
  }

  ghost predicate WaitsOk<P>(s: State<P>) {
    MarkersOk(s) && ListsOk(s.fetches, s.calls)
  }

  // ---- What each segment does to the entries

  /** `t` has the entries of `s` except that keys may have gone. */
  ghost predicate OnlyRemoves<P>(s: State<P>, t: State<P>) {
    && |t.data| == |s.data| && KeysDistinct(t)
    && forall c: nat, k: string :: EntryAt(t, c, k) == None || EntryAt(t, c, k) == EntryAt(s, c, k)
  }

  lemma SetEntries<P>(s: State<P>, c: nat, k: string, p: P, kind: Kind, now: nat)
    requires KeysDistinct(s)
    ensures var t := Set(s, c, k, p, kind, now);
            && |t.data| == |s.data| && KeysDistinct(t)
            && MarkerAt(t, c, k) == None
            && forall d: nat, j: string :: d != c || j != k ==> EntryAt(t, d, j) == EntryAt(s, d, j)
  {
    if c < |s.data| {
      var col := s.data[c];
      var t := Set(s, c, k, p, kind, now);
      DeleteLooksUp(col.values, k);
      if kind != AsFetching {
        var size := if kind == AsValue then col.getSize(p) else 8;
        var content := if kind == AsValue then Value(p) else Failure(p);
        PutLooksUp(Delete(col.values, k), k, Entry(content, size, now + col.timeoutMs));
      }
    }
  }

  lemma GetInstantEntries<P>(s: State<P>, c: nat, k: string, now: nat)
    requires KeysDistinct(s)
    ensures var t := GetInstant(s, c, k, now);
            && |t.data| == |s.data| && KeysDistinct(t)
            && forall d: nat, j: string :: EntryAt(t, d, j) == EntryAt(s, d, j)
  {
    if Peek(s, c, k, now).Hit? {
      var col := s.data[c];
      DeleteLooksUp(col.values, k);
      PutLooksUp(Delete(col.values, k), k, Lookup(col.values, k).value);
    }
  }

  lemma PutEntries<P>(s: State<P>, c: nat, k: string, e: Entry<P>)
    requires KeysDistinct(s) && c < |s.data|
    ensures var t := Updated(s, c, s.data[c].(values := Put(s.data[c].values, k, e)));
            && KeysDistinct(t)
            && forall d: nat, j: string :: EntryAt(t, d, j) == if d == c && j == k then Some(e) else EntryAt(s, d, j)
  {
    PutLooksUp(s.data[c].values, k, e);
  }

  lemma RemovedLooksUp<P>(col: Collection<P>, i: nat)
    requires Distinct(col.values) && i < |col.values|
    ensures Distinct(Removed(col, i).values)
    ensures Lookup(col.values, col.values[i].0) == Some(col.values[i].1)
    ensures forall k :: Lookup(Removed(col, i).values, k)
                        == if k == col.values[i].0 then None else Lookup(col.values, k)
  {
    CutIsDelete(col.values, i);
    LookupAt(col.values, i);
    DeleteLooksUp(col.values, col.values[i].0);
  }

  ghost predicate Thinner<P>(m: OMap<string, Entry<P>>, n: OMap<string, Entry<P>>) {
    Distinct(n) && forall k :: Lookup(n, k) == None || Lookup(n, k) == Lookup(m, k)
  }

  lemma {:induction false} ExpireLooksUp<P>(col: Collection<P>, total: int, i: nat, now: nat)
    requires Distinct(col.values) && i <= |col.values|
    ensures Thinner(col.values, Expire(col, total, i, now).0.values)
    ensures forall k :: Has(col.values, k) && !Expired(Lookup(col.values, k).value, now)
              ==> Lookup(Expire(col, total, i, now).0.values, k) == Lookup(col.values, k)
    decreases |col.values| - i
  {
    if i < |col.values| {
      if Expired(col.values[i].1, now) {
        RemovedLooksUp(col, i);
        ExpireLooksUp(Removed(col, i), total - col.values[i].1.size, i, now);
      } else {
        ExpireLooksUp(col, total, i + 1, now);
      }
    }
  }

  lemma {:induction false} EvictLooksUp<P>(col: Collection<P>, total: int, maxSize: int)
    requires Distinct(col.values)
    ensures Thinner(col.values, Evict(col, total, maxSize).0.values)
    decreases |col.values|
  {
    if total > maxSize && |col.values| > 0 {
      RemovedLooksUp(col, 0);
      EvictLooksUp(Removed(col, 0), total - col.values[0].1.size, maxSize);
    }
  }

  lemma {:induction false} CollectFromEntries<P>(data: seq<Collection<P>>, c: nat, total: int, maxSize: int, now: nat)
    requires c <= |data|
    requires forall d :: 0 <= d < |data| ==> Distinct(data[d].values)
    ensures var r := CollectFrom(data, c, total, maxSize, now);
            && |r.0| == |data|
            && forall d :: 0 <= d < |data| ==> Thinner(data[d].values, r.0[d].values)
    decreases |data| - c
  {
    if c < |data| {
      ExpireLooksUp(data[c], total, 0, now);
      var kept := Expire(data[c], total, 0, now);
      EvictLooksUp(kept.0, kept.1, maxSize);
      var one := CollectOne(data[c], total, maxSize, now);
      CollectFromEntries(data[c := one.0], c + 1, one.1, maxSize, now);
    }
  }

  lemma CollectEntries<P>(s: State<P>, now: nat)
    requires KeysDistinct(s)
    ensures OnlyRemoves(s, Collect(s, now))
  {
    CollectFromEntries(s.data, 0, s.size, s.maxSize, now);
    var t := Collect(s, now);
    forall c: nat, k: string
      ensures EntryAt(t, c, k) == None || EntryAt(t, c, k) == EntryAt(s, c, k)
    {
      if c < |s.data| {
        assert Thinner(s.data[c].values, t.data[c].values);
      }
    }
  }

  // ---- Preservation

  /** Steps that neither start nor end fetches and put no marker in place. */
  lemma QuietStepKeepsWaits<P>(s: State<P>, t: State<P>)
    requires WaitsOk(s) && KeysDistinct(t)
    requires t.fetches == s.fetches && t.calls == s.calls
    requires forall c: nat, k: string :: MarkerAt(t, c, k).Some? ==>
               MarkerAt(t, c, k) == MarkerAt(s, c, k) && EntryAt(t, c, k).value.timeout == -1
    ensures WaitsOk(t)
  {
  }

  lemma SetKeepsWaits<P>(s: State<P>, c: nat, k: string, p: P, kind: Kind, now: nat)
    requires WaitsOk(s)
    ensures WaitsOk(Set(s, c, k, p, kind, now))
  {
    SetEntries(s, c, k, p, kind, now);
    QuietStepKeepsWaits(s, Set(s, c, k, p, kind, now));
  }

  lemma CollectKeepsWaits<P>(s: State<P>, now: nat)
    requires WaitsOk(s)
    ensures WaitsOk(Collect(s, now))
  {
    CollectEntries(s, now);
    QuietStepKeepsWaits(s, Collect(s, now));
  }

  lemma GetInstantKeepsWaits<P>(s: State<P>, c: nat, k: string, now: nat)
    requires WaitsOk(s)
    ensures WaitsOk(GetInstant(s, c, k, now))
  {
    GetInstantEntries(s, c, k, now);
    QuietStepKeepsWaits(s, GetInstant(s, c, k, now));
  }

  lemma SetDirtyKeepsWaits<P>(s: State<P>, c: nat, k: string)
    requires WaitsOk(s)
    ensures WaitsOk(SetDirty(s, c, k))
  {
    if c < |s.data| && Has(s.data[c].values, k) {
      PutEntries(s, c, k, Lookup(s.data[c].values, k).value.(timeout := -1));
    }
    QuietStepKeepsWaits(s, SetDirty(s, c, k));
  }

  /** A call that is in no list can end. */
  lemma CallKeepsLists<P>(fetches: map<Caller, Fetch>, calls: map<Caller, CallState<P>>, q: Caller, x: CallState<P>)
    requires ListsOk(fetches, calls) && (q !in calls || calls[q].Woken?)
    requires !x.Fetcher? && !x.Waiting?
    ensures ListsOk(fetches, calls[q := x])
  {
  }

  /** What a call does when it joins the list of fetch `f`. */
  function Joined(fetches: map<Caller, Fetch>, q: Caller, f: Caller): map<Caller, Fetch>
    requires f in fetches
  {
    fetches[f := fetches[f].(waiters := fetches[f].waiters + [q])]
  }

  lemma JoinKeepsLists<P>(fetches: map<Caller, Fetch>, calls: map<Caller, CallState<P>>, q: Caller, f: Caller)
    requires ListsOk(fetches, calls) && (q !in calls || calls[q].Woken?) && f in fetches
    ensures ListsOk(Joined(fetches, q, f), calls[q := Waiting(fetches[f].c, fetches[f].k)])
  {
    var fetches' := Joined(fetches, q, f);
    var calls' := calls[q := Waiting(fetches[f].c, fetches[f].k)];
    forall r | r in calls' && calls'[r].Waiting?
      ensures exists g :: WaitsOn(fetches', r, calls'[r].c, calls'[r].k, g)
    {
      JoinedWaits(fetches, calls, q, f, r);
    }
    forall g, r | InList(fetches', g, r)
      ensures r in calls' && calls'[r] == Waiting(fetches'[g].c, fetches'[g].k)
      ensures if r == q then g == f else InList(fetches, g, r)
    {
      assert r != q ==> InList(fetches, g, r);
      assert !InList(fetches, g, q);
    }
  }

  lemma JoinedWaits<P>(fetches: map<Caller, Fetch>, calls: map<Caller, CallState<P>>, q: Caller, f: Caller, r: Caller)
    requires ListsOk(fetches, calls) && (q !in calls || calls[q].Woken?) && f in fetches
    requires var calls' := calls[q := Waiting(fetches[f].c, fetches[f].k)];
             r in calls' && calls'[r].Waiting?
    ensures var calls' := calls[q := Waiting(fetches[f].c, fetches[f].k)];
            exists g :: WaitsOn(Joined(fetches, q, f), r, calls'[r].c, calls'[r].k, g)
  {
    if r == q {
      assert WaitsOn(Joined(fetches, q, f), q, fetches[f].c, fetches[f].k, f);
    } else {
      var g :| WaitsOn(fetches, r, calls[r].c, calls[r].k, g);
      assert WaitsOn(Joined(fetches, q, f), r, calls[r].c, calls[r].k, g);
    }
  }

  lemma StartKeepsLists<P>(fetches: map<Caller, Fetch>, calls: map<Caller, CallState<P>>, q: Caller, c: nat, k: string)
    requires ListsOk(fetches, calls) && (q !in calls || calls[q].Woken?)
    ensures ListsOk(fetches[q := Fetch(c, k, [])], calls[q := Fetcher])
  {
    var fetches' := fetches[q := Fetch(c, k, [])];
    var calls' := calls[q := Fetcher];
    assert q !in fetches;
    forall g, r | InList(fetches', g, r)
      ensures InList(fetches, g, r)
    {
    }
    forall r | r in calls' && calls'[r].Waiting?
      ensures exists g :: WaitsOn(fetches', r, calls'[r].c, calls'[r].k, g)
    {
      var g :| WaitsOn(fetches, r, calls[r].c, calls[r].k, g);
      assert WaitsOn(fetches', r, calls'[r].c, calls'[r].k, g);
    }
  }

  /** A fetch ends: its list is woken and its call gets the state `x`. */
  lemma FinishKeepsLists<P>(fetches: map<Caller, Fetch>, calls: map<Caller, CallState<P>>, f: Caller, x: CallState<P>)
    requires ListsOk(fetches, calls) && f in fetches && !x.Fetcher? && !x.Waiting?
    ensures ListsOk(fetches - {f}, Woke(calls, fetches[f])[f := x])
  {
    var calls' := Woke(calls, fetches[f])[f := x];
    forall g, r | InList(fetches - {f}, g, r)
      ensures InList(fetches, g, r) && !InList(fetches, f, r)
    {
      assert InList(fetches, g, r);
    }
    forall q | q in calls' && calls'[q].Waiting?
      ensures exists g :: WaitsOn(fetches - {f}, q, calls'[q].c, calls'[q].k, g)
    {
      var g :| WaitsOn(fetches, q, calls[q].c, calls[q].k, g);
      assert WaitsOn(fetches - {f}, q, calls'[q].c, calls'[q].k, g);
    }
  }

  lemma MarkersAfterStart<P>(s: State<P>, q: Caller, c: nat, k: string)
    requires MarkersOk(s) && q !in s.fetches && c < |s.data|
    ensures var e := Entry(Fetching(q), SizeAt(EntryAt(s, c, k)), -1);
            MarkersOk(Updated(s, c, s.data[c].(values := Put(s.data[c].values, k, e)))
                        .(fetches := s.fetches[q := Fetch(c, k, [])], calls := s.calls[q := Fetcher]))
  {
    var e := Entry(Fetching(q), SizeAt(EntryAt(s, c, k)), -1);
    PutEntries(s, c, k, e);
    var u := Updated(s, c, s.data[c].(values := Put(s.data[c].values, k, e)));
    var t := u.(fetches := s.fetches[q := Fetch(c, k, [])], calls := s.calls[q := Fetcher]);
    assert forall d: nat, j: string :: EntryAt(t, d, j) == EntryAt(u, d, j);
  }

  /** Steps that leave the entries and the fetches' keys as they are keep the markers. */
  lemma SameEntriesKeepMarkers<P>(s: State<P>, t: State<P>)
    requires MarkersOk(s) && KeysDistinct(t)
    requires forall d: nat, j: string :: EntryAt(t, d, j) == EntryAt(s, d, j)
    requires forall f :: f in s.fetches ==>
               f in t.fetches && t.fetches[f].c == s.fetches[f].c && t.fetches[f].k == s.fetches[f].k
    ensures MarkersOk(t)
  {
    forall c: nat, k: string | MarkerAt(t, c, k).Some?
      ensures MarkerAt(s, c, k) == MarkerAt(t, c, k)
    {
      assert EntryAt(t, c, k) == EntryAt(s, c, k);
    }
  }

  lemma GetJoinKeepsWaits<P>(s: State<P>, q: Caller, c: nat, k: string, now: nat)
    requires WaitsOk(s) && (q !in s.calls || s.calls[q].Woken?)
    requires Peek(s, c, k, now).Miss? && MarkerAt(s, c, k).Some?
    ensures WaitsOk(Get(s, q, c, k, now))
  {
    var f := MarkerAt(s, c, k).value;
    var t := Get(s, q, c, k, now);
    assert t.fetches == Joined(s.fetches, q, f) && t.data == s.data;
    JoinKeepsLists(s.fetches, s.calls, q, f);
    forall d: nat, j: string
      ensures EntryAt(t, d, j) == EntryAt(s, d, j)
    {
    }
    SameEntriesKeepMarkers(s, t);
  }

  lemma GetKeepsWaits<P>(s: State<P>, q: Caller, c: nat, k: string, now: nat)
    requires WaitsOk(s) && (q !in s.calls || s.calls[q].Woken?)
    ensures WaitsOk(Get(s, q, c, k, now))
  {
    var t := Get(s, q, c, k, now);
    if !Peek(s, c, k, now).Miss? {
      var u := GetInstant(s, c, k, now);
      GetInstantKeepsWaits(s, c, k, now);
      CallKeepsLists(s.fetches, s.calls, q, t.calls[q]);
      assert t.data == u.data && t.fetches == u.fetches;
      forall d: nat, j: string
        ensures EntryAt(t, d, j) == EntryAt(u, d, j)
      {
      }
      SameEntriesKeepMarkers(u, t);
    } else if MarkerAt(s, c, k).Some? {
      GetJoinKeepsWaits(s, q, c, k, now);
    } else {
      StartKeepsLists(s.fetches, s.calls, q, c, k);
      MarkersAfterStart(s, q, c, k);
    }
  }

  /** A fetch ends: its marker is gone and no other one is touched. */
  lemma CompleteKeepsMarkersOk<P>(s: State<P>, f: Caller, p: P, ok: bool, now: nat)
    requires MarkersOk(s) && f in s.fetches
    ensures MarkersOk(Complete(s, f, p, ok, now))
  {
    var job := s.fetches[f];
    var kind := if ok then AsValue else AsError;
    var u := Set(s, job.c, job.k, p, kind, now);
    var t := Complete(s, f, p, ok, now);
    SetEntries(s, job.c, job.k, p, kind, now);
    assert t.data == u.data;
    forall d: nat, j: string
      ensures MarkerAt(t, d, j) != Some(f) && EntryAt(t, d, j) == EntryAt(u, d, j)
      ensures MarkerAt(t, d, j).Some? ==> EntryAt(t, d, j) == EntryAt(s, d, j)
    {
      if d != job.c || j != job.k {
        assert MarkerAt(t, d, j) == MarkerAt(s, d, j);
      }
    }
  }

  lemma CompleteKeepsWaits<P>(s: State<P>, f: Caller, p: P, ok: bool, now: nat)
    requires WaitsOk(s) && f in s.fetches
    ensures WaitsOk(Complete(s, f, p, ok, now))
  {
    FinishKeepsLists(s.fetches, s.calls, f, if ok then Returned(Value(p)) else Thrown(p));
    CompleteKeepsMarkersOk(s, f, p, ok, now);
  }

  lemma StepKeepsWaits<P>(s: State<P>, a: Step<P>)
    requires WaitsOk(s) && Enabled(s, a)
    ensures WaitsOk(Apply(s, a))
  {
    match a {
      case DoRegister(_, _) => QuietStepKeepsWaits(s, Apply(s, a));
      case DoSet(c, k, p, kind, now) => SetKeepsWaits(s, c, k, p, kind, now);
      case DoGetInstant(c, k, now) => GetInstantKeepsWaits(s, c, k, now);
      case DoGet(q, c, k, now) => GetKeepsWaits(s, q, c, k, now);
      case DoResume(q, now) => GetKeepsWaits(s, q, s.calls[q].c, s.calls[q].k, now);
      case DoComplete(q, p, ok, now) => CompleteKeepsWaits(s, q, p, ok, now);
      case DoSetDirty(c, k) => SetDirtyKeepsWaits(s, c, k);
      case DoCollect(now) => CollectKeepsWaits(s, now);
    }
  }

  lemma {:induction false} RunKeepsWaits<P>(maxSize: int, steps: seq<Step<P>>)
    requires Run(maxSize, steps).Some?
    ensures WaitsOk(Run(maxSize, steps).value)
    decreases |steps|
  {
    if steps != [] {
      RunKeepsWaits(maxSize, steps[..|steps| - 1]);
      StepKeepsWaits(Run(maxSize, steps[..|steps| - 1]).value, steps[|steps| - 1]);
    }
  }

  /** In every interleaving, manual sets and evictions of entries being fetched included, a waiting call is
      in the list of a fetch in flight for its key; so when no fetch is in flight nobody waits. */
  lemma NobodyWaitsForNothing<P>(maxSize: int, steps: seq<Step<P>>, q: Caller)
    requires Run(maxSize, steps).Some?
    requires q in Run(maxSize, steps).value.calls && Run(maxSize, steps).value.calls[q].Waiting?
    ensures var s := Run(maxSize, steps).value;
            && s.fetches != map[]
            && exists f :: WaitsOn(s.fetches, q, s.calls[q].c, s.calls[q].k, f)
  {
    RunKeepsWaits(maxSize, steps);
  }

  lemma WaiterWakes<P>(s: State<P>, f: Caller, q: Caller, p: P, ok: bool, now: nat)
    requires WaitsOk(s) && InList(s.fetches, f, q)
    ensures var t := Complete(s, f, p, ok, now);
            q in t.calls && t.calls[q] == Woken(s.fetches[f].c, s.fetches[f].k)
  {
    assert q in s.calls && s.calls[q].Waiting?;
    assert s.calls[f].Fetcher?;
  }

  /** The end of a fetch resumes every call in its list. */
  lemma CompleteWakes<P>(maxSize: int, steps: seq<Step<P>>, f: Caller, q: Caller, p: P, ok: bool, now: nat)
    requires Run(maxSize, steps).Some?
    requires f in Run(maxSize, steps).value.fetches && q in Run(maxSize, steps).value.fetches[f].waiters
    ensures var s := Run(maxSize, steps).value;
            var t := Complete(s, f, p, ok, now);
            && q in t.calls && t.calls[q] == Woken(s.fetches[f].c, s.fetches[f].k)
            && Enabled(t, DoResume(q, now))
  {
    RunKeepsWaits(maxSize, steps);
    WaiterWakes(Run(maxSize, steps).value, f, q, p, ok, now);
  }

  // ---- One fetch per key

  /** Every fetch in flight has its marker in place, so no key has two. */
  ghost predicate MarkersInPlace<P>(s: State<P>) {
    forall f :: f in s.fetches ==> MarkerAt(s, s.fetches[f].c, s.fetches[f].k) == Some(f)
  }

  /** The unexpired entry `j` of the collection is a marker and is crowded out. */
  predicate CrowdsMarker<P>(s: State<P>, now: nat, c: nat, j: nat) {
    Crowded(s, now, c, j) && Unexpired(s.data[c].values, now)[j].1.content.Fetching?
  }

  /** A step takes a marker away from its fetch: a manual set hits it, or a collector run crowds it out. */
  ghost predicate Displaces<P>(s: State<P>, a: Step<P>) {
    || (a.DoSet? && MarkerAt(s, a.c, a.k).Some?)
    || (a.DoCollect? && exists c: nat, j: nat :: CrowdsMarker(s, a.now, c, j))
  }

  /** Steps that leave the fetches and the markers as they are. */
  lemma QuietStepKeepsMarkers<P>(s: State<P>, t: State<P>)
    requires MarkersInPlace(s) && WaitsOk(s)
    requires t.fetches.Keys == s.fetches.Keys
    requires forall f :: f in s.fetches ==> t.fetches[f].c == s.fetches[f].c && t.fetches[f].k == s.fetches[f].k
    requires forall c: nat, k: string :: MarkerAt(s, c, k).Some? ==> MarkerAt(t, c, k) == MarkerAt(s, c, k)
    ensures MarkersInPlace(t)
  {
    forall f | f in t.fetches
      ensures MarkerAt(t, t.fetches[f].c, t.fetches[f].k) == Some(f)
    {
      assert MarkerAt(s, s.fetches[f].c, s.fetches[f].k) == Some(f);
    }
  }

  lemma StartKeepsMarkers<P>(s: State<P>, q: Caller, c: nat, k: string, e: Entry<P>)
    requires WaitsOk(s) && MarkersInPlace(s) && q !in s.fetches
    requires c < |s.data| && e.content == Fetching(q) && MarkerAt(s, c, k).None?
    ensures MarkersInPlace(Updated(s, c, s.data[c].(values := Put(s.data[c].values, k, e)))
                             .(fetches := s.fetches[q := Fetch(c, k, [])], calls := s.calls[q := Fetcher]))
  {
    PutEntries(s, c, k, e);
    var u := Updated(s, c, s.data[c].(values := Put(s.data[c].values, k, e)));
    var t := u.(fetches := s.fetches[q := Fetch(c, k, [])], calls := s.calls[q := Fetcher]);
    forall f | f in t.fetches
      ensures MarkerAt(t, t.fetches[f].c, t.fetches[f].k) == Some(f)
    {
      assert EntryAt(t, t.fetches[f].c, t.fetches[f].k) == EntryAt(u, t.fetches[f].c, t.fetches[f].k);
      if f != q {
        assert MarkerAt(s, s.fetches[f].c, s.fetches[f].k) == Some(f);
      }
    }
  }

  lemma GetKeepsMarkers<P>(s: State<P>, q: Caller, c: nat, k: string, now: nat)
    requires WaitsOk(s) && MarkersInPlace(s) && (q !in s.calls || s.calls[q].Woken?)
    ensures MarkersInPlace(Get(s, q, c, k, now))
  {
    if Peek(s, c, k, now).Miss? && MarkerAt(s, c, k).None? {
      StartKeepsMarkers(s, q, c, k, Entry(Fetching(q), SizeAt(EntryAt(s, c, k)), -1));
    } else {
      var t := Get(s, q, c, k, now);
      GetInstantEntries(s, c, k, now);
      assert forall d: nat, j: string :: EntryAt(t, d, j) == EntryAt(GetInstant(s, c, k, now), d, j);
      QuietStepKeepsMarkers(s, t);
    }
  }

  lemma CompleteKeepsMarkers<P>(s: State<P>, f: Caller, p: P, ok: bool, now: nat)
    requires WaitsOk(s) && MarkersInPlace(s) && f in s.fetches
    ensures MarkersInPlace(Complete(s, f, p, ok, now))
  {
    var job := s.fetches[f];
    var kind := if ok then AsValue else AsError;
    SetEntries(s, job.c, job.k, p, kind, now);
    var u := Set(s, job.c, job.k, p, kind, now);
    var t := Complete(s, f, p, ok, now);
    forall g | g in t.fetches
      ensures MarkerAt(t, t.fetches[g].c, t.fetches[g].k) == Some(g)
    {
      assert MarkerAt(s, s.fetches[g].c, s.fetches[g].k) == Some(g);
      assert MarkerAt(s, job.c, job.k) == Some(f);
      assert EntryAt(t, t.fetches[g].c, t.fetches[g].k) == EntryAt(u, t.fetches[g].c, t.fetches[g].k);
    }
  }

  lemma SetKeepsMarkersIff<P>(s: State<P>, c: nat, k: string, p: P, kind: Kind, now: nat)
    requires WaitsOk(s) && MarkersInPlace(s)
    ensures MarkersInPlace(Set(s, c, k, p, kind, now)) <==> MarkerAt(s, c, k).None?
  {
    SetEntries(s, c, k, p, kind, now);
    var t := Set(s, c, k, p, kind, now);
    if MarkerAt(s, c, k).Some? {
      var f := MarkerAt(s, c, k).value;
      assert f in t.fetches && MarkerAt(t, t.fetches[f].c, t.fetches[f].k) == None;
    } else {
      forall d: nat, j: string | MarkerAt(s, d, j).Some?
        ensures MarkerAt(t, d, j) == MarkerAt(s, d, j)
      {
        assert d != c || j != k;
      }
      QuietStepKeepsMarkers(s, t);
    }
  }

  /** An unexpired entry has its place among them. */
  lemma EntryPlace<P>(s: State<P>, now: nat, c: nat, k: string) returns (j: nat)
    requires EntryAt(s, c, k).Some? && !Expired(EntryAt(s, c, k).value, now)
    ensures c < |s.data| && j < |Unexpired(s.data[c].values, now)|
    ensures Unexpired(s.data[c].values, now)[j] == (k, EntryAt(s, c, k).value)
  {
    var m, e := s.data[c].values, EntryAt(s, c, k).value;
    LookupMember(m, k);
    UnexpiredIffKept(m, now, (k, e));
    var kept := Unexpired(m, now);
    j :| 0 <= j < |kept| && kept[j] == (k, e);
  }

  /** An entry is found under its key exactly when it is in the Map. */
  lemma FoundIff<P>(m: OMap<string, Entry<P>>, k: string, e: Entry<P>)
    requires Distinct(m)
    ensures Lookup(m, k) == Some(e) <==> (k, e) in m
  {
    if Has(m, k) {
      LookupMember(m, k);
    }
    if (k, e) in m {
      var i :| 0 <= i < |m| && m[i] == (k, e);
      LookupAt(m, i);
    }
  }

  /** An unexpired entry is found after a collector run just when it is not crowded out. */
  lemma StaysIff<P>(s: State<P>, now: nat, c: nat, j: nat)
    requires KeysDistinct(s) && AllEntriesOk(s.data) && c < |s.data| && j < |Unexpired(s.data[c].values, now)|
    ensures var x := Unexpired(s.data[c].values, now)[j];
            && EntryAt(s, c, x.0) == Some(x.1)
            && (EntryAt(Collect(s, now), c, x.0) == if Crowded(s, now, c, j) then None else Some(x.1))
  {
    var x := Unexpired(s.data[c].values, now)[j];
    UnexpiredIffKept(s.data[c].values, now, x);
    FoundIff(s.data[c].values, x.0, x.1);
    SurvivesIff(s, now, c, j);
    CollectEntries(s, now);
    var t := Collect(s, now);
    FoundIff(t.data[c].values, x.0, x.1);
    assert EntryAt(t, c, x.0) == None || EntryAt(t, c, x.0) == EntryAt(s, c, x.0);
  }

  lemma CrowdedMarkerGoes<P>(s: State<P>, now: nat, c: nat, j: nat)
    requires WaitsOk(s) && AllEntriesOk(s.data) && CrowdsMarker(s, now, c, j)
    ensures !MarkersInPlace(Collect(s, now))
  {
    StaysIff(s, now, c, j);
    var x := Unexpired(s.data[c].values, now)[j];
    var f := MarkerAt(s, c, x.0).value;
    var t := Collect(s, now);
    assert f in t.fetches && MarkerAt(t, t.fetches[f].c, t.fetches[f].k) == None;
  }

  lemma CollectKeepsMarkersIff<P>(s: State<P>, now: nat)
    requires WaitsOk(s) && MarkersInPlace(s) && AllEntriesOk(s.data)
    ensures MarkersInPlace(Collect(s, now)) <==> !exists c: nat, j: nat :: CrowdsMarker(s, now, c, j)
  {
    if c: nat, j: nat :| CrowdsMarker(s, now, c, j) {
      CrowdedMarkerGoes(s, now, c, j);
    } else {
      var t := Collect(s, now);
      forall c: nat, k: string | MarkerAt(s, c, k).Some?
        ensures MarkerAt(t, c, k) == MarkerAt(s, c, k)
      {
        var j := EntryPlace(s, now, c, k);
        assert !CrowdsMarker(s, now, c, j);
        StaysIff(s, now, c, j);
      }
      QuietStepKeepsMarkers(s, t);
    }
  }

  /** A step leaves every fetch its marker if and only if it displaces none. */
  lemma StepKeepsMarkersIff<P>(s: State<P>, a: Step<P>)
    requires WaitsOk(s) && MarkersInPlace(s) && AllEntriesOk(s.data) && Enabled(s, a)
    ensures MarkersInPlace(Apply(s, a)) <==> !Displaces(s, a)
  {
    match a {
      case DoRegister(_, _) =>
        assert forall c: nat, k: string :: c < |s.data| ==> EntryAt(Apply(s, a), c, k) == EntryAt(s, c, k);
        QuietStepKeepsMarkers(s, Apply(s, a));
      case DoSet(c, k, p, kind, now) => SetKeepsMarkersIff(s, c, k, p, kind, now);
      case DoGetInstant(c, k, now) =>
        GetInstantEntries(s, c, k, now);
        QuietStepKeepsMarkers(s, Apply(s, a));
      case DoGet(q, c, k, now) => GetKeepsMarkers(s, q, c, k, now);
      case DoResume(q, now) => GetKeepsMarkers(s, q, s.calls[q].c, s.calls[q].k, now);
      case DoComplete(q, p, ok, now) => CompleteKeepsMarkers(s, q, p, ok, now);
      case DoSetDirty(c, k) => SetDirtyKeepsMarkers(s, c, k);
      case DoCollect(now) => CollectKeepsMarkersIff(s, now);
    }
  }

  lemma SetDirtyKeepsMarkers<P>(s: State<P>, c: nat, k: string)
    requires WaitsOk(s) && MarkersInPlace(s)
    ensures MarkersInPlace(SetDirty(s, c, k))
  {
    if c < |s.data| && Has(s.data[c].values, k) {
      PutEntries(s, c, k, Lookup(s.data[c].values, k).value.(timeout := -1));
    }
    QuietStepKeepsMarkers(s, SetDirty(s, c, k));
  }

  // ---- ... over runs

  ghost predicate InPlaceAt<P>(maxSize: int, steps: seq<Step<P>>, i: nat)
    requires i <= |steps|
  {
    Run(maxSize, steps[..i]).Some? && MarkersInPlace(Run(maxSize, steps[..i]).value)
  }

  ghost predicate DisplacesAt<P>(maxSize: int, steps: seq<Step<P>>, i: nat)
    requires i < |steps|
  {
    Run(maxSize, steps[..i]).Some? && Displaces(Run(maxSize, steps[..i]).value, steps[i])
  }

  lemma {:induction false} InPlaceUpTo<P>(maxSize: int, steps: seq<Step<P>>, i: nat)
    requires Run(maxSize, steps).Some? && i <= |steps|
    requires forall j :: 0 <= j < i ==> !DisplacesAt(maxSize, steps, j)
    ensures InPlaceAt(maxSize, steps, i)
  {
    if i > 0 {
      InPlaceUpTo(maxSize, steps, i - 1);
      assert !DisplacesAt(maxSize, steps, i - 1);
      InPlaceNext(maxSize, steps, i - 1);
    } else {
      assert steps[..0] == [];
    }
  }

  /** One step of a run. */
  lemma InPlaceNext<P>(maxSize: int, steps: seq<Step<P>>, i: nat)
    requires Run(maxSize, steps).Some? && i < |steps| && InPlaceAt(maxSize, steps, i)
    ensures InPlaceAt(maxSize, steps, i + 1) <==> !DisplacesAt(maxSize, steps, i)
  {
    BeginningRuns(maxSize, steps, i);
    RunKeepsWaits(maxSize, steps[..i]);
    RunKeepsEntries(maxSize, steps[..i]);
    StepKeepsMarkersIff(Run(maxSize, steps[..i]).value, steps[i]);
  }

  /** Throughout a run every fetch in flight has its marker in place if and only if no step displaces one. */
  lemma RunKeepsMarkersIff<P>(maxSize: int, steps: seq<Step<P>>)
    requires Run(maxSize, steps).Some?
    ensures (forall i :: 0 <= i <= |steps| ==> InPlaceAt(maxSize, steps, i))
            <==> forall i :: 0 <= i < |steps| ==> !DisplacesAt(maxSize, steps, i)
  {
    if forall i :: 0 <= i < |steps| ==> !DisplacesAt(maxSize, steps, i) {
      forall i | 0 <= i <= |steps|
        ensures InPlaceAt(maxSize, steps, i)
      {
        InPlaceUpTo(maxSize, steps, i);
      }
    }
    if forall i :: 0 <= i <= |steps| ==> InPlaceAt(maxSize, steps, i) {
      forall i | 0 <= i < |steps|
        ensures !DisplacesAt(maxSize, steps, i)
      {
        assert InPlaceAt(maxSize, steps, i) && InPlaceAt(maxSize, steps, i + 1);
        InPlaceNext(maxSize, steps, i);
      }
    }
  }

  ghost predicate OneEach<P>(s: State<P>) {
    forall f, g | f in s.fetches && g in s.fetches ::
      s.fetches[f].c == s.fetches[g].c && s.fetches[f].k == s.fetches[g].k ==> f == g
  }

  /** While no step displaces a marker at most one fetch per key is in flight. */
  lemma OneFetchPerKey<P>(maxSize: int, steps: seq<Step<P>>, s: State<P>)
    requires Run(maxSize, steps) == Some(s)
    requires forall i :: 0 <= i < |steps| ==> !DisplacesAt(maxSize, steps, i)
    ensures OneEach(s)
  {
    InPlaceUpTo(maxSize, steps, |steps|);
    assert steps[..|steps|] == steps;
  }

  // ---- What a fetch without its marker allows

  ghost predicate FetchesKnown<P>(s: State<P>) {
    forall f :: f in s.fetches ==> s.fetches[f].c < |s.data|
  }

  lemma StepKnowsFetches<P>(s: State<P>, a: Step<P>)
    requires KeysDistinct(s) && FetchesKnown(s) && Enabled(s, a)
    ensures FetchesKnown(Apply(s, a))
  {
    if a.DoCollect? {
      CollectEntries(s, a.now);
    }
  }

  lemma {:induction false} RunKnowsFetches<P>(maxSize: int, steps: seq<Step<P>>)
    requires Run(maxSize, steps).Some?
    ensures FetchesKnown(Run(maxSize, steps).value)
    decreases |steps|
  {
    if steps != [] {
      var front := steps[..|steps| - 1];
      RunKeepsWaits(maxSize, front);
      RunKnowsFetches(maxSize, front);
      StepKnowsFetches(Run(maxSize, front).value, steps[|steps| - 1]);
    }
  }

  /** The state when `k` is invalidated and then asked for by a new call. */
  function Refreshed<P>(s: State<P>, q: Caller, c: nat, k: string, now: nat): State<P> {
    Get(SetDirty(s, c, k), q, c, k, now)
  }

  ghost predicate OneEachRefreshed<P>(s: State<P>, q: Caller, c: nat, k: string, now: nat) {
    OneEach(Refreshed(s, q, c, k, now))
  }

  lemma {:induction false} UnusedCaller(used: set<Caller>) returns (q: Caller)
    ensures forall x :: x in used ==> x < q
  {
    if used == {} {
      q := 0;
    } else {
      var x :| x in used;
      var p := UnusedCaller(used - {x});
      q := if x < p then p else x + 1;
      assert forall y :: y in used ==> y == x || y in used - {x};
    }
  }

  /** A fetch without its marker is one invalidation and one get away from a second fetch of its key. */
  lemma SecondFetch<P>(s: State<P>, f: Caller, q: Caller, now: nat)
    requires WaitsOk(s) && FetchesKnown(s) && f in s.fetches && q !in s.calls
    requires MarkerAt(s, s.fetches[f].c, s.fetches[f].k) == None
    ensures var t := Refreshed(s, q, s.fetches[f].c, s.fetches[f].k, now);
            && f in t.fetches && q in t.fetches && f != q
            && t.fetches[q].c == t.fetches[f].c && t.fetches[q].k == t.fetches[f].k
  {
    var c, k := s.fetches[f].c, s.fetches[f].k;
    var u := SetDirty(s, c, k);
    if Has(s.data[c].values, k) {
      PutEntries(s, c, k, Lookup(s.data[c].values, k).value.(timeout := -1));
    }
    assert Peek(u, c, k, now).Miss? && MarkerAt(u, c, k) == None;
  }

  /** In every reachable state the markers are in place if and only if no key has two fetches, and none gets two by
      one invalidation and one get. */
  lemma InPlaceIffOneEach<P>(maxSize: int, steps: seq<Step<P>>, s: State<P>)
    requires Run(maxSize, steps) == Some(s)
    ensures MarkersInPlace(s) <==>
            && OneEach(s)
            && forall q, c: nat, k: string, now: nat :: q !in s.calls ==> OneEachRefreshed(s, q, c, k, now)
  {
    RunKeepsWaits(maxSize, steps);
    RunKnowsFetches(maxSize, steps);
    if MarkersInPlace(s) {
      forall q, c: nat, k: string, now: nat | q !in s.calls
        ensures OneEachRefreshed(s, q, c, k, now)
      {
        SetDirtyKeepsWaits(s, c, k);
        SetDirtyKeepsMarkers(s, c, k);
        GetKeepsMarkers(SetDirty(s, c, k), q, c, k, now);
      }
    } else {
      var f :| f in s.fetches && MarkerAt(s, s.fetches[f].c, s.fetches[f].k) != Some(f);
      var c, k := s.fetches[f].c, s.fetches[f].k;
      if MarkerAt(s, c, k) == None {
        var q := UnusedCaller(s.calls.Keys);
        SecondFetch(s, f, q, 0);
        assert !OneEachRefreshed(s, q, c, k, 0);
      }
    }
  }

  /** So does the collector when the cache is over its limit: it evicts the marker, and the next get starts a second
      fetch. */
  lemma TwoFetchesAfterEviction<P>(maxSize: int, k: string, p: P) returns (steps: seq<Step<P>>, s: State<P>)
    ensures Run(maxSize, steps) == Some(s)
    ensures 0 in s.fetches && 1 in s.fetches
    ensures s.fetches[0].c == s.fetches[1].c && s.fetches[0].k == s.fetches[1].k == k
  {
    steps, s := FullWithMarker(maxSize, k, p);
    var before := s;
    steps, s := Extend(maxSize, steps, s, DoCollect(0));
    assert s.data[0].values == [];
    assert Peek(s, 0, k, 0) == Miss;
    steps, s := Extend(maxSize, steps, s, DoGet(1, 0, k, 0));
  }

  /** A cache over its limit whose first entry is the marker of a fetch. */
  lemma FullWithMarker<P>(maxSize: int, k: string, p: P) returns (steps: seq<Step<P>>, s: State<P>)
    ensures Run(maxSize, steps) == Some(s) && s.maxSize == maxSize && |s.data| == 1
    ensures s.fetches == map[0 := Fetch(0, k, [])] && 1 !in s.calls
    ensures |Collect(s, 0).data| == 1 && Collect(s, 0).data[0].values == []
  {
    var size: nat := if maxSize < 0 then 0 else maxSize + 1;
    steps, s := [], Init(maxSize);
    steps, s := Extend(maxSize, steps, s, DoRegister(1, (x: P) => size));
    steps, s := Extend(maxSize, steps, s, DoGet(0, 0, k, 0));
    assert s.data[0].values == [(k, Entry(Fetching(0), 0, -1))];
    var other, before := k + "x", s;
    assert |other| != |k|;
    assert Delete(before.data[0].values, other) == before.data[0].values;
    assert Lookup(before.data[0].values, other) == None;
    steps, s := Extend(maxSize, steps, s, DoSet(0, other, p, AsValue, 0));
    var e := Entry(Value(p), size, 1);
    assert s.size == size && s.data[0].values == Put(before.data[0].values, other, e);
    assert before.data[0].values[1..] == [] && Put(before.data[0].values[1..], other, e) == [(other, e)];
    assert s.data[0].values == [(k, Entry(Fetching(0), 0, -1))] + [(other, e)];
    EvictsBoth(s.data[0], s.size, maxSize);
    var one := CollectOne(s.data[0], s.size, maxSize, 0);
    assert CollectFrom(s.data[0 := one.0], 1, one.1, maxSize, 0).0 == s.data[0 := one.0];
  }

  lemma EvictsBoth<P>(col: Collection<P>, total: int, maxSize: int)
    requires |col.values| == 2 && col.values[0].1.size == 0 && total > maxSize
    requires !Expired(col.values[0].1, 0) && !Expired(col.values[1].1, 0)
    ensures CollectOne(col, total, maxSize, 0).0.values == []
  {
    assert Expire(col, total, 2, 0) == (col, total);
    assert Expire(col, total, 1, 0) == (col, total);
    var one := Removed(col, 0);
    assert one.values == [col.values[1]] && Removed(one, 0).values == [];
    assert Evict(one, total, maxSize).0.values == [];
  }

  /** A manual set while a fetch is in flight replaces the marker: once that value is invalidated the next
      get starts a second fetch for the same key. */
  lemma TwoFetchesAfterSet<P>(maxSize: int, k: string, p: P) returns (steps: seq<Step<P>>, s: State<P>)
    ensures Run(maxSize, steps) == Some(s)
    ensures 0 in s.fetches && 1 in s.fetches
    ensures s.fetches[0].c == s.fetches[1].c && s.fetches[0].k == s.fetches[1].k == k
  {
    steps, s := [], Init(maxSize);
    steps, s := Extend(maxSize, steps, s, DoRegister(1, (x: P) => 0));
    assert EntryAt(s, 0, k) == None;
    steps, s := Extend(maxSize, steps, s, DoGet(0, 0, k, 0));
    var before := s;
    steps, s := Extend(maxSize, steps, s, DoSet(0, k, p, AsValue, 0));
    RunKeepsWaits(maxSize, steps);
    SetEntries(before, 0, k, p, AsValue, 0);
    before := s;
    steps, s := Extend(maxSize, steps, s, DoSetDirty(0, k));
    if Has(before.data[0].values, k) {
      PutEntries(before, 0, k, Lookup(before.data[0].values, k).value.(timeout := -1));
    }
    assert Peek(s, 0, k, 0) == Miss;
    steps, s := Extend(maxSize, steps, s, DoGet(1, 0, k, 0));
  }
}
