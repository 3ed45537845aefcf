/** What calls of the cache answer, told by the history of the run: what was stored last for a key, when, and whether it
has been invalidated since.
 */
module CacheAnswers {
  import opened Wrappers
  import opened OrderedMap
  import opened CacheModel
  import opened CacheSizes
  import opened CacheWaiters

  /** A value or an error that was stored, at what time, and whether it has been invalidated since. */
  datatype Store<P> = Store(content: Content<P>, at: nat, dirty: bool)

  /** What call `q` asked for. */
  function Asked<P>(steps: seq<Step<P>>, q: Caller): Option<(nat, string)>
    decreases |steps|
  {
    if steps == [] then None
    else
      var front, a := steps[..|steps| - 1], steps[|steps| - 1];
      if a.DoGet? && a.q == q then Some((a.c, a.k)) else Asked(front, q)
  }

  /** What was stored last for the key, by a manual set or the end of a fetch. */
  function LastStore<P>(steps: seq<Step<P>>, c: nat, k: string): Option<Store<P>>
    decreases |steps|
  {
    if steps == [] then None
    else NextStore(steps[..|steps| - 1], LastStore(steps[..|steps| - 1], c, k), steps[|steps| - 1], c, k)
  }

  function NextStore<P>(front: seq<Step<P>>, last: Option<Store<P>>, a: Step<P>, c: nat, k: string)
    : Option<Store<P>>
  {
    match a
    case DoSet(d, j, p, kind, now) =>
      if d == c && j == k && kind == AsValue then Some(Store(Value(p), now, false))
      else if d == c && j == k && kind == AsError then Some(Store(Failure(p), now, false))
      else last
    case DoComplete(q, p, ok, now) =>
      if Asked(front, q) == Some((c, k)) then Some(Store(if ok then Value(p) else Failure(p), now, false)) else last
    case DoSetDirty(d, j) =>
      if d == c && j == k && last.Some? then Some(last.value.(dirty := true)) else last
    case _ => last
  }

  lemma HistoryGrows<P>(steps: seq<Step<P>>, a: Step<P>)
    ensures forall c: nat, k: string ::
              LastStore(steps + [a], c, k) == NextStore(steps, LastStore(steps, c, k), a, c, k)
    ensures forall q :: Asked(steps + [a], q) == if a.DoGet? && a.q == q then Some((a.c, a.k)) else Asked(steps, q)
  {
    assert (steps + [a])[..|steps|] == steps;
  }

  // ---- The entries

  /** A value has the size its collection gives it, an error has size 8, and both live for the collection's time. */
  ghost predicate IsStore<P>(timeoutMs: int, getSize: P -> nat, e: Entry<P>, st: Option<Store<P>>) {
    && st.Some? && e.content == st.value.content && !e.content.Fetching?
    && e.timeout == (if st.value.dirty then -1 else st.value.at + timeoutMs)
    && e.size == (if e.content.Value? then getSize(e.content.p) else 8)
  }

  /** Every entry that holds a value or an error holds what was stored last for its key. */
  ghost predicate HoldsStores<P>(s: State<P>, steps: seq<Step<P>>) {
    forall c: nat, k: string :: HoldsStore(s, steps, c, k)
  }

  ghost predicate HoldsStore<P>(s: State<P>, steps: seq<Step<P>>, c: nat, k: string) {
    var e := EntryAt(s, c, k);
    e.Some? && !e.value.content.Fetching? ==>
      IsStore(s.data[c].timeoutMs, s.data[c].getSize, e.value, LastStore(steps, c, k))
  }

  /** Every call stands for the key it asked for. */
  ghost predicate CallsAsked<P>(s: State<P>, steps: seq<Step<P>>) {
    && (forall f :: f in s.fetches ==> Asked(steps, f) == Some((s.fetches[f].c, s.fetches[f].k)))
    && (forall q :: q in s.calls && (s.calls[q].Waiting? || s.calls[q].Woken?) ==>
          Asked(steps, q) == Some((s.calls[q].c, s.calls[q].k)))
  }

  ghost predicate SameOptions<P>(s: State<P>, t: State<P>) {
    && |s.data| <= |t.data|
    && forall c :: 0 <= c < |s.data| ==>
         t.data[c].timeoutMs == s.data[c].timeoutMs && t.data[c].getSize == s.data[c].getSize
  }

  /** set stores a value with its size, or an error with size 8, to live for the collection's time. */
  lemma SetStores<P>(s: State<P>, c: nat, k: string, p: P, kind: Kind, now: nat)
    requires KeysDistinct(s) && c < |s.data| && kind != AsFetching
    ensures var t := Set(s, c, k, p, kind, now);
            && SameOptions(s, t)
            && EntryAt(t, c, k)
               == Some(if kind == AsValue then Entry(Value(p), s.data[c].getSize(p), now + s.data[c].timeoutMs)
                       else Entry(Failure(p), 8, now + s.data[c].timeoutMs))
  {
    var col := s.data[c];
    var size := if kind == AsValue then col.getSize(p) else 8;
    var content := if kind == AsValue then Value(p) else Failure(p);
    DeleteLooksUp(col.values, k);
    PutLooksUp(Delete(col.values, k), k, Entry(content, size, now + col.timeoutMs));
  }

  /** A step that stores nothing and changes no entry but by removing it or putting a marker in its place. */
  lemma QuietHoldsStores<P>(s: State<P>, t: State<P>, steps: seq<Step<P>>, a: Step<P>)
    requires HoldsStores(s, steps) && SameOptions(s, t) && !a.DoSet? && !a.DoComplete? && !a.DoSetDirty?
    requires forall c: nat, k: string ::
               EntryAt(t, c, k) == None || EntryAt(t, c, k) == EntryAt(s, c, k) || MarkerAt(t, c, k).Some?
    ensures HoldsStores(t, steps + [a])
  {
    HistoryGrows(steps, a);
    forall c: nat, k: string
      ensures HoldsStore(t, steps + [a], c, k)
    {
      assert HoldsStore(s, steps, c, k);
    }
  }

  lemma SetHoldsStores<P>(s: State<P>, c: nat, k: string, p: P, kind: Kind, now: nat, steps: seq<Step<P>>, a: Step<P>)
    requires KeysDistinct(s) && HoldsStores(s, steps)
    requires forall d: nat, j: string :: d != c || j != k ==>
               NextStore(steps, LastStore(steps, d, j), a, d, j) == LastStore(steps, d, j)
    requires kind != AsFetching ==>
               NextStore(steps, LastStore(steps, c, k), a, c, k)
               == Some(Store(if kind == AsValue then Value(p) else Failure(p), now, false))
    ensures HoldsStores(Set(s, c, k, p, kind, now), steps + [a])
  {
    HistoryGrows(steps, a);
    SetEntries(s, c, k, p, kind, now);
    if c < |s.data| && kind != AsFetching {
      SetStores(s, c, k, p, kind, now);
    }
    var t := Set(s, c, k, p, kind, now);
    forall d: nat, j: string
      ensures HoldsStore(t, steps + [a], d, j)
    {
      assert HoldsStore(s, steps, d, j);
      if d == c && j == k && kind == AsFetching && c < |s.data| {
        DeleteLooksUp(s.data[c].values, k);
      }
    }
  }

  lemma SetDirtyHoldsStores<P>(s: State<P>, c: nat, k: string, steps: seq<Step<P>>)
    requires KeysDistinct(s) && HoldsStores(s, steps)
    ensures HoldsStores(SetDirty(s, c, k), steps + [DoSetDirty(c, k)])
  {
    HistoryGrows(steps, DoSetDirty(c, k));
    if c < |s.data| && Has(s.data[c].values, k) {
      PutEntries(s, c, k, Lookup(s.data[c].values, k).value.(timeout := -1));
    }
    forall d: nat, j: string
      ensures HoldsStore(SetDirty(s, c, k), steps + [DoSetDirty(c, k)], d, j)
    {
      assert HoldsStore(s, steps, d, j);
    }
  }

  lemma GetEntries<P>(s: State<P>, q: Caller, c: nat, k: string, now: nat)
    requires KeysDistinct(s)
    ensures var t := Get(s, q, c, k, now);
            && SameOptions(s, t)
            && forall d: nat, j: string :: EntryAt(t, d, j) == EntryAt(s, d, j) || MarkerAt(t, d, j).Some?
  {
    GetInstantEntries(s, c, k, now);
    if Peek(s, c, k, now).Miss? && MarkerAt(s, c, k).None? {
      var e := Entry(Fetching(q), SizeAt(EntryAt(s, c, k)), -1);
      PutEntries(s, c, k, e);
      var u := Updated(s, c, s.data[c].(values := Put(s.data[c].values, k, e)));
      assert Get(s, q, c, k, now).data == u.data;
      forall d: nat, j: string
        ensures EntryAt(Get(s, q, c, k, now), d, j) == EntryAt(u, d, j)
      {
      }
    } else {
      forall d: nat, j: string
        ensures EntryAt(Get(s, q, c, k, now), d, j) == EntryAt(GetInstant(s, c, k, now), d, j)
      {
      }
    }
  }

  lemma StepHoldsStores<P>(s: State<P>, steps: seq<Step<P>>, a: Step<P>)
    requires KeysDistinct(s) && HoldsStores(s, steps) && CallsAsked(s, steps) && Enabled(s, a)
    ensures HoldsStores(Apply(s, a), steps + [a])
  {
    match a {
      case DoRegister(_, _) => QuietHoldsStores(s, Apply(s, a), steps, a);
      case DoSet(c, k, p, kind, now) => SetHoldsStores(s, c, k, p, kind, now, steps, a);
      case DoGetInstant(c, k, now) =>
        GetInstantEntries(s, c, k, now);
        QuietHoldsStores(s, Apply(s, a), steps, a);
      case DoGet(q, c, k, now) =>
        GetEntries(s, q, c, k, now);
        QuietHoldsStores(s, Apply(s, a), steps, a);
      case DoResume(q, now) =>
        GetEntries(s, q, s.calls[q].c, s.calls[q].k, now);
        QuietHoldsStores(s, Apply(s, a), steps, a);
      case DoComplete(q, p, ok, now) => CompleteHoldsStores(s, q, p, ok, now, steps);
      case DoSetDirty(c, k) => SetDirtyHoldsStores(s, c, k, steps);
      case DoCollect(now) =>
        CollectEntries(s, now);
        CollectSameOptions(s, now);
        QuietHoldsStores(s, Apply(s, a), steps, a);
    }
  }

  lemma CollectSameOptions<P>(s: State<P>, now: nat)
    ensures SameOptions(s, Collect(s, now))
  {
    CollectFromLength(s.data, 0, s.size, s.maxSize, now);
    forall c | 0 <= c < |s.data|
      ensures Collect(s, now).data[c].timeoutMs == s.data[c].timeoutMs
      ensures Collect(s, now).data[c].getSize == s.data[c].getSize
    {
      CollectKeepsOptions(s.data, 0, s.size, s.maxSize, now, c);
    }
  }

  lemma CompleteHoldsStores<P>(s: State<P>, f: Caller, p: P, ok: bool, now: nat, steps: seq<Step<P>>)
    requires KeysDistinct(s) && HoldsStores(s, steps) && CallsAsked(s, steps) && f in s.fetches
    ensures HoldsStores(Complete(s, f, p, ok, now), steps + [DoComplete(f, p, ok, now)])
  {
    var a := DoComplete(f, p, ok, now);
    var job := s.fetches[f];
    var u := Set(s, job.c, job.k, p, if ok then AsValue else AsError, now);
    SetHoldsStores(s, job.c, job.k, p, if ok then AsValue else AsError, now, steps, a);
    forall d: nat, j: string
      ensures HoldsStore(Complete(s, f, p, ok, now), steps + [a], d, j)
    {
      assert HoldsStore(u, steps + [a], d, j);
    }
  }

  /** A call that starts or goes on, asking for `k`. */
  lemma GetCallsAsked<P>(s: State<P>, q: Caller, c: nat, k: string, now: nat, steps: seq<Step<P>>, a: Step<P>)
    requires WaitsOk(s) && CallsAsked(s, steps) && (q !in s.calls || s.calls[q].Woken?)
    requires Asked(steps + [a], q) == Some((c, k))
    requires forall x :: x != q ==> Asked(steps + [a], x) == Asked(steps, x)
    ensures CallsAsked(Get(s, q, c, k, now), steps + [a])
  {
    assert q !in s.fetches;
  }

  lemma CompleteCallsAsked<P>(s: State<P>, f: Caller, p: P, ok: bool, now: nat, steps: seq<Step<P>>, a: Step<P>)
    requires WaitsOk(s) && CallsAsked(s, steps) && f in s.fetches
    requires forall x :: Asked(steps + [a], x) == Asked(steps, x)
    ensures CallsAsked(Complete(s, f, p, ok, now), steps + [a])
  {
    var t := Complete(s, f, p, ok, now);
    forall q | q in t.calls && (t.calls[q].Waiting? || t.calls[q].Woken?)
      ensures Asked(steps + [a], q) == Some((t.calls[q].c, t.calls[q].k))
    {
      if q in s.fetches[f].waiters {
        assert InList(s.fetches, f, q);
      }
    }
  }

  lemma StepCallsAsked<P>(s: State<P>, steps: seq<Step<P>>, a: Step<P>)
    requires WaitsOk(s) && CallsAsked(s, steps) && Enabled(s, a)
    ensures CallsAsked(Apply(s, a), steps + [a])
  {
    HistoryGrows(steps, a);
    match a {
      case DoGet(q, c, k, now) => GetCallsAsked(s, q, c, k, now, steps, a);
      case DoResume(q, now) => GetCallsAsked(s, q, s.calls[q].c, s.calls[q].k, now, steps, a);
      case DoComplete(q, p, ok, now) => CompleteCallsAsked(s, q, p, ok, now, steps, a);
      case DoRegister(_, _) | DoSet(_, _, _, _, _) | DoGetInstant(_, _, _) | DoSetDirty(_, _) | DoCollect(_) =>
        SameCallsAsked(s, Apply(s, a), steps, a);
    }
  }

  lemma SameCallsAsked<P>(s: State<P>, t: State<P>, steps: seq<Step<P>>, a: Step<P>)
    requires CallsAsked(s, steps) && t.fetches == s.fetches && t.calls == s.calls
    requires forall x :: Asked(steps + [a], x) == Asked(steps, x)
    ensures CallsAsked(t, steps + [a])
  {
  }

  lemma {:induction false} RunHoldsStores<P>(maxSize: int, steps: seq<Step<P>>)
    requires Run(maxSize, steps).Some?
    ensures HoldsStores(Run(maxSize, steps).value, steps) && CallsAsked(Run(maxSize, steps).value, steps)
    decreases |steps|
  {
    if steps != [] {
      var front, a := steps[..|steps| - 1], steps[|steps| - 1];
      RunKeepsWaits(maxSize, front);
      RunHoldsStores(maxSize, front);
      StepHoldsStores(Run(maxSize, front).value, front, a);
      StepCallsAsked(Run(maxSize, front).value, front, a);
      assert front + [a] == steps;
    }
  }

  // ---- What each step does to the entry of a key

  /** What set makes of the entry of `k` when it is called for that key. */
  function Stored<P>(col: Collection<P>, p: P, kind: Kind, now: nat): Option<Entry<P>> {
    match kind
    case AsValue => Some(Entry(Value(p), col.getSize(p), now + col.timeoutMs))
    case AsError => Some(Entry(Failure(p), 8, now + col.timeoutMs))
    case AsFetching => None
  }

  /** What a call of get by `q` makes of it: a marker of the same size where it finds nothing good and no marker. */
  function Asking<P>(e: Option<Entry<P>>, q: Caller, now: nat): Option<Entry<P>> {
    match e
    case None => Some(Entry(Fetching(q), 0, -1))
    case Some(x) => if x.timeout < now && !x.content.Fetching? then Some(Entry(Fetching(q), x.size, -1)) else e
  }

  lemma SetChanges<P>(s: State<P>, d: nat, j: string, p: P, kind: Kind, now: nat, c: nat, k: string)
    requires KeysDistinct(s)
    ensures EntryAt(Set(s, d, j, p, kind, now), c, k)
            == if d == c && j == k && c < |s.data| then Stored(s.data[c], p, kind, now) else EntryAt(s, c, k)
  {
    SetEntries(s, d, j, p, kind, now);
    if d < |s.data| {
      DeleteLooksUp(s.data[d].values, j);
      if kind != AsFetching {
        SetStores(s, d, j, p, kind, now);
      }
    }
  }

  lemma GetChanges<P>(s: State<P>, q: Caller, d: nat, j: string, now: nat, c: nat, k: string)
    requires KeysDistinct(s)
    ensures EntryAt(Get(s, q, d, j, now), c, k)
            == if d == c && j == k && c < |s.data| then Asking(EntryAt(s, c, k), q, now) else EntryAt(s, c, k)
  {
    GetInstantEntries(s, d, j, now);
    if Peek(s, d, j, now).Miss? && MarkerAt(s, d, j).None? {
      PutEntries(s, d, j, Entry(Fetching(q), SizeAt(EntryAt(s, d, j)), -1));
    }
  }

  /** Every step but a collector run, on the entry of any key. */
  lemma StepChangesEntries<P>(s: State<P>, a: Step<P>, c: nat, k: string)
    requires KeysDistinct(s) && Enabled(s, a) && !a.DoCollect? && c < |s.data|
    ensures EntryAt(Apply(s, a), c, k)
            == match a
               case DoSet(d, j, p, kind, now) =>
                 if d == c && j == k then Stored(s.data[c], p, kind, now) else EntryAt(s, c, k)
               case DoComplete(f, p, ok, now) =>
                 if s.fetches[f].c == c && s.fetches[f].k == k
                 then Stored(s.data[c], p, if ok then AsValue else AsError, now) else EntryAt(s, c, k)
               case DoSetDirty(d, j) =>
                 if d == c && j == k && EntryAt(s, c, k).Some? then Some(EntryAt(s, c, k).value.(timeout := -1))
                 else EntryAt(s, c, k)
               case DoGet(q, d, j, now) =>
                 if d == c && j == k then Asking(EntryAt(s, c, k), q, now) else EntryAt(s, c, k)
               case DoResume(q, now) =>
                 if s.calls[q] == Woken(c, k) then Asking(EntryAt(s, c, k), q, now) else EntryAt(s, c, k)
               case _ => EntryAt(s, c, k)
  {
    match a {
      case DoSet(d, j, p, kind, now) => SetChanges(s, d, j, p, kind, now, c, k);
      case DoComplete(f, p, ok, now) =>
        SetChanges(s, s.fetches[f].c, s.fetches[f].k, p, if ok then AsValue else AsError, now, c, k);
      case DoSetDirty(d, j) =>
        if EntryAt(s, d, j).Some? {
          PutEntries(s, d, j, EntryAt(s, d, j).value.(timeout := -1));
        }
      case DoGet(q, d, j, now) => GetChanges(s, q, d, j, now, c, k);
      case DoResume(q, now) => GetChanges(s, q, s.calls[q].c, s.calls[q].k, now, c, k);
      case DoGetInstant(d, j, now) => GetInstantEntries(s, d, j, now);
      case DoRegister(_, _) =>
    }
  }

  // ---- What calls answer

  /** What was stored last for the key is still good at `now`. */
  ghost predicate Good<P>(s: State<P>, steps: seq<Step<P>>, c: nat, k: string, now: nat) {
    && c < |s.data| && LastStore(steps, c, k).Some?
    && var st := LastStore(steps, c, k).value;
       !st.dirty && st.at + s.data[c].timeoutMs >= now
  }

  /** An entry that can be found holds what was stored last, and that is still good. */
  lemma FoundIsGood<P>(s: State<P>, steps: seq<Step<P>>, c: nat, k: string, now: nat)
    requires MarkersOk(s) && HoldsStores(s, steps)
    requires EntryAt(s, c, k).Some? && EntryAt(s, c, k).value.timeout >= now
    ensures Good(s, steps, c, k, now)
    ensures EntryAt(s, c, k).value.content == LastStore(steps, c, k).value.content
    ensures EntryAt(s, c, k).value.content.Value? || EntryAt(s, c, k).value.content.Failure?
  {
    assert HoldsStore(s, steps, c, k);
    assert EntryAt(s, c, k).value.content.Fetching? ==> MarkerAt(s, c, k).Some?;
  }

  /** In every run getInstant answers what was stored last for the key, as a value or as an error that is raised, if its
      entry is there and has not timed out, and nothing else. */
  lemma InstantAnswers<P>(maxSize: int, steps: seq<Step<P>>, s: State<P>, c: nat, k: string, now: nat)
    requires Run(maxSize, steps) == Some(s)
    ensures c >= |s.data| ==> Peek(s, c, k, now) == NoCollection
    ensures c < |s.data| && (EntryAt(s, c, k) == None || EntryAt(s, c, k).value.timeout < now) ==>
              Peek(s, c, k, now) == Miss
    ensures c < |s.data| && EntryAt(s, c, k).Some? && EntryAt(s, c, k).value.timeout >= now ==>
              && Good(s, steps, c, k, now)
              && match LastStore(steps, c, k).value.content
                 case Value(p) => Peek(s, c, k, now) == Hit(Value(p))
                 case Failure(p) => Peek(s, c, k, now) == Raise(p)
                 case Fetching(_) => false
  {
    RunHoldsStores(maxSize, steps);
    RunKeepsWaits(maxSize, steps);
    if c < |s.data| && EntryAt(s, c, k).Some? && EntryAt(s, c, k).value.timeout >= now {
      FoundIsGood(s, steps, c, k, now);
    }
  }

  /** In every run a call of get that starts or goes on returns the value, or throws the error, that was stored last for
      the key it asked for, if its entry is there and has not timed out; otherwise it fetches or waits. */
  lemma CallAnswers<P>(maxSize: int, steps: seq<Step<P>>, s: State<P>, a: Step<P>, q: Caller, c: nat, k: string,
                       now: nat)
    requires Run(maxSize, steps) == Some(s) && Enabled(s, a)
    requires a == DoGet(q, c, k, now) || (a == DoResume(q, now) && Asked(steps, q) == Some((c, k)))
    ensures q in Apply(s, a).calls
    ensures var answer := Apply(s, a).calls[q];
            if c >= |s.data| then answer == Rejected
            else if EntryAt(s, c, k) == None || EntryAt(s, c, k).value.timeout < now then
              answer == Fetcher || answer == Waiting(c, k)
            else
              && Good(s, steps, c, k, now)
              && match LastStore(steps, c, k).value.content
                 case Value(p) => answer == Returned(Value(p))
                 case Failure(p) => answer == Thrown(p)
                 case Fetching(_) => false
  {
    RunHoldsStores(maxSize, steps);
    InstantAnswers(maxSize, steps, s, c, k, now);
  }

  predicate Ended<P>(x: CallState<P>) {
    x.Returned? || x.Thrown? || x.Rejected?
  }

  lemma StepKeepsEnded<P>(s: State<P>, a: Step<P>, q: Caller)
    requires WaitsOk(s) && Enabled(s, a) && q in s.calls && Ended(s.calls[q])
    ensures q in Apply(s, a).calls && Apply(s, a).calls[q] == s.calls[q]
  {
    if a.DoComplete? && q in s.fetches[a.q].waiters {
      assert InList(s.fetches, a.q, q);
    }
  }

  lemma {:induction false} RunKeepsEnded<P>(maxSize: int, steps: seq<Step<P>>, i: nat, q: Caller)
    requires Run(maxSize, steps).Some? && i <= |steps| && Run(maxSize, steps[..i]).Some?
    requires q in Run(maxSize, steps[..i]).value.calls && Ended(Run(maxSize, steps[..i]).value.calls[q])
    ensures q in Run(maxSize, steps).value.calls
    ensures Run(maxSize, steps).value.calls[q] == Run(maxSize, steps[..i]).value.calls[q]
    decreases |steps|
  {
    if i == |steps| {
      assert steps[..i] == steps;
    } else {
      var front := steps[..|steps| - 1];
      assert front[..i] == steps[..i];
      RunKeepsEnded(maxSize, front, i, q);
      RunKeepsWaits(maxSize, front);
      StepKeepsEnded(Run(maxSize, front).value, steps[|steps| - 1], q);
    }
  }

  /** In every run a call whose fetch answered has returned the fetched value, or thrown the error of the fetch. */
  lemma FetchAnswers<P>(maxSize: int, steps: seq<Step<P>>, i: nat)
    requires Run(maxSize, steps).Some? && i < |steps| && steps[i].DoComplete?
    ensures var calls := Run(maxSize, steps).value.calls;
            && steps[i].q in calls
            && calls[steps[i].q] == if steps[i].ok then Returned(Value(steps[i].p)) else Thrown(steps[i].p)
  {
    BeginningRuns(maxSize, steps, i);
    BeginningRuns(maxSize, steps, i + 1);
    RunKeepsEnded(maxSize, steps, i + 1, steps[i].q);
  }
}
