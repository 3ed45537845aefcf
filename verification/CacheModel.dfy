/** The asynchronous cache as a state machine: each stretch of code between two awaits is one step, so
an interleaving of gets, fetch completions, manual sets, invalidations and garbage collections is a
sequence of steps. Collections are named by their registration index.
 */
module CacheModel {
  import opened Wrappers
  import opened OrderedMap

  type Caller = nat

  /** What an entry holds. A fetching entry holds the list of the get call that fetches; that list is
      named by the call, and lives on when the entry is overwritten or evicted. */
  datatype Content<P> = Value(p: P) | Failure(p: P) | Fetching(owner: Caller)

  datatype Kind = AsValue | AsError | AsFetching

  datatype Entry<P> = Entry(content: Content<P>, size: int, timeout: int)

  datatype Collection<!P> = Collection(
    values: OMap<string, Entry<P>>,
    size: int,
    timeoutMs: int,
    getSize: P -> nat)

  datatype Fetch = Fetch(c: nat, k: string, waiters: seq<Caller>)

  /** Where a get call stands. */
  datatype CallState<P> =
    | Fetcher
    | Waiting(c: nat, k: string)
    | Woken(c: nat, k: string)
    | Returned(content: Content<P>)
    | Thrown(p: P)
    | Rejected

  datatype State<!P> = State(
    data: seq<Collection<P>>,
    size: int,
    maxSize: int,
    fetches: map<Caller, Fetch>,
    calls: map<Caller, CallState<P>>)

  function Init<P>(maxSize: int): State<P> {
    State([], 0, maxSize, map[], map[])
  }

  // ---- Sizes

  function SizeAt<P>(e: Option<Entry<P>>): int {
    if e.Some? then e.value.size else 0
  }

  function Sum<P>(m: OMap<string, Entry<P>>): int {
    if m == [] then 0 else m[0].1.size + Sum(m[1..])
  }

  function Total<P>(data: seq<Collection<P>>): int {
    if data == [] then 0 else data[0].size + Total(data[1..])
  }

  lemma {:induction false} SumDelete<P>(m: OMap<string, Entry<P>>, k: string)
    ensures Sum(Delete(m, k)) == Sum(m) - SizeAt(Lookup(m, k))
  {
    if m != [] && m[0].0 != k {
      SumDelete(m[1..], k);
    }
  }

  lemma {:induction false} SumPut<P>(m: OMap<string, Entry<P>>, k: string, e: Entry<P>)
    ensures Sum(Put(m, k, e)) == Sum(m) - SizeAt(Lookup(m, k)) + e.size
  {
    if m != [] && m[0].0 != k {
      SumPut(m[1..], k, e);
    }
  }

  lemma {:induction false} SumSplit<P>(m: OMap<string, Entry<P>>, n: OMap<string, Entry<P>>)
    ensures Sum(m + n) == Sum(m) + Sum(n)
  {
    if m == [] {
      assert m + n == n;
    } else {
      assert (m + n)[1..] == m[1..] + n;
      SumSplit(m[1..], n);
    }
  }

  lemma {:induction false} TotalUpdate<P>(data: seq<Collection<P>>, c: nat, col: Collection<P>)
    requires c < |data|
    ensures Total(data[c := col]) == Total(data) - data[c].size + col.size
  {
    if c > 0 {
      assert data[c := col][1..] == data[1..][c - 1 := col];
      TotalUpdate(data[1..], c - 1, col);
    }
  }

  lemma {:induction false} TotalAppend<P>(data: seq<Collection<P>>, col: Collection<P>)
    ensures Total(data + [col]) == Total(data) + col.size
  {
    if data != [] {
      assert (data + [col])[1..] == data[1..] + [col];
      TotalAppend(data[1..], col);
    }
  }

  // ---- Segments

  function Updated<P>(s: State<P>, c: nat, col: Collection<P>): State<P>
    requires c < |s.data|
  {
    s.(data := s.data[c := col])
  }

  function Set<P>(s: State<P>, c: nat, k: string, p: P, kind: Kind, now: nat): State<P> {
    if c >= |s.data| then s // the collection does not exist
    else
      var col := s.data[c];
      var removed := Delete(col.values, k);
      if kind == AsFetching then Updated(s, c, col.(values := removed)) // fails after the deletion
      else
        var size := if kind == AsValue then col.getSize(p) else 8;
        var content := if kind == AsValue then Value(p) else Failure(p);
        var diff := size - SizeAt(Lookup(col.values, k));
        var entry := Entry(content, size, now + col.timeoutMs);
        Updated(s, c, col.(values := Put(removed, k, entry), size := col.size + diff)).(size := s.size + diff)
  }

  datatype Instant<P> = Miss | Hit(content: Content<P>) | Raise(p: P) | NoCollection

  function Peek<P>(s: State<P>, c: nat, k: string, now: nat): Instant<P> {
    if c >= |s.data| then NoCollection
    else
      match Lookup(s.data[c].values, k)
      case None => Miss
      case Some(e) =>
        if e.timeout < now then Miss
        else if e.content.Failure? then Raise(e.content.p)
        else Hit(e.content)
  }

  /** getInstant on the state: a hit moves the entry to the end. */
  function GetInstant<P>(s: State<P>, c: nat, k: string, now: nat): State<P> {
    if Peek(s, c, k, now).Hit? then
      var col := s.data[c];
      var e := Lookup(col.values, k).value;
      Updated(s, c, col.(values := Put(Delete(col.values, k), k, e)))
    else s
  }

  /** get up to its next await, for a call that starts or that has just been woken. */
  function Get<P>(s: State<P>, q: Caller, c: nat, k: string, now: nat): State<P> {
    match Peek(s, c, k, now)
    case NoCollection => s.(calls := s.calls[q := Rejected])
    case Hit(content) => GetInstant(s, c, k, now).(calls := s.calls[q := Returned(content)])
    case Raise(p) => s.(calls := s.calls[q := Thrown(p)])
    case Miss =>
      var col := s.data[c];
      var found := Lookup(col.values, k);
      if found.Some? && found.value.content.Fetching? then
        var f := found.value.content.owner;
        var waiting := s.(calls := s.calls[q := Waiting(c, k)]);
        // A list whose fetch is over would never be resolved.
        if f in s.fetches then
          waiting.(fetches := s.fetches[f := s.fetches[f].(waiters := s.fetches[f].waiters + [q])])
        else waiting
      else
        Updated(s, c, col.(values := Put(col.values, k, Entry(Fetching(q), SizeAt(found), -1))))
          .(fetches := s.fetches[q := Fetch(c, k, [])], calls := s.calls[q := Fetcher])
  }

  /** The calls after every promise in the list of `job` has been resolved. */
  function Woke<P>(calls: map<Caller, CallState<P>>, job: Fetch): map<Caller, CallState<P>> {
    map q | q in calls :: if q in job.waiters then Woken(job.c, job.k) else calls[q]
  }

  /** The end of get, once the awaited fetch has answered: store, wake the waiters, return. */
  function Complete<P>(s: State<P>, f: Caller, p: P, ok: bool, now: nat): State<P>
    requires f in s.fetches
  {
    var job := s.fetches[f];
    var stored := Set(s, job.c, job.k, p, if ok then AsValue else AsError, now);
    stored.(
      fetches := s.fetches - {f},
      calls := Woke(s.calls, job)[f := if ok then Returned(Value(p)) else Thrown(p)])
  }

  function SetDirty<P>(s: State<P>, c: nat, k: string): State<P> {
    if c >= |s.data| || !Has(s.data[c].values, k) then s
    else
      var col := s.data[c];
      Updated(s, c, col.(values := Put(col.values, k, Lookup(col.values, k).value.(timeout := -1))))
  }

  function Register<P>(s: State<P>, timeoutMs: int, getSize: P -> nat): State<P> {
    s.(data := s.data + [Collection([], 0, timeoutMs, getSize)])
  }

  // ---- The collector

  predicate Expired<P>(e: Entry<P>, now: nat) {
    0 < e.timeout < now
  }

  function Removed<P>(col: Collection<P>, i: nat): Collection<P>
    requires i < |col.values|
  {
    col.(values := col.values[..i] + col.values[i + 1..], size := col.size - col.values[i].1.size)
  }

  /** The pass over the entries from position `i`, removing the expired ones. */
  function Expire<P>(col: Collection<P>, total: int, i: nat, now: nat): (Collection<P>, int)
    requires i <= |col.values|
    decreases |col.values| - i
  {
    if i == |col.values| then (col, total)
    else if Expired(col.values[i].1, now) then Expire(Removed(col, i), total - col.values[i].1.size, i, now)
    else Expire(col, total, i + 1, now)
  }

  /** The eviction of first entries while the cache is over its limit. */
  function Evict<P>(col: Collection<P>, total: int, maxSize: int): (Collection<P>, int)
    decreases |col.values|
  {
    if total > maxSize && |col.values| > 0 then Evict(Removed(col, 0), total - col.values[0].1.size, maxSize)
    else (col, total)
  }

  function CollectOne<P>(col: Collection<P>, total: int, maxSize: int, now: nat): (Collection<P>, int) {
    var kept := Expire(col, total, 0, now);
    Evict(kept.0, kept.1, maxSize)
  }

  function CollectFrom<P>(data: seq<Collection<P>>, c: nat, total: int, maxSize: int, now: nat)
    : (seq<Collection<P>>, int)
    requires c <= |data|
    decreases |data| - c
  {
    if c == |data| then (data, total)
    else
      var one := CollectOne(data[c], total, maxSize, now);
      CollectFrom(data[c := one.0], c + 1, one.1, maxSize, now)
  }

  function Collect<P>(s: State<P>, now: nat): State<P> {
    var r := CollectFrom(s.data, 0, s.size, s.maxSize, now);
    s.(data := r.0, size := r.1)
  }

  // ---- Runs

  datatype Step<!P> =
    | DoRegister(timeoutMs: int, getSize: P -> nat)
    | DoSet(c: nat, k: string, p: P, kind: Kind, now: nat)
    | DoGetInstant(c: nat, k: string, now: nat)
    | DoGet(q: Caller, c: nat, k: string, now: nat)
    | DoResume(q: Caller, now: nat)
    | DoComplete(q: Caller, p: P, ok: bool, now: nat)
    | DoSetDirty(c: nat, k: string)
    | DoCollect(now: nat)

  predicate Enabled<P>(s: State<P>, a: Step<P>) {
    match a
    case DoGet(q, _, _, _) => q !in s.calls
    case DoResume(q, _) => q in s.calls && s.calls[q].Woken?
    case DoComplete(q, _, _, _) => q in s.fetches
    case _ => true
  }

  function Apply<P>(s: State<P>, a: Step<P>): State<P>
    requires Enabled(s, a)
  {
    match a
    case DoRegister(timeoutMs, getSize) => Register(s, timeoutMs, getSize)
    case DoSet(c, k, p, kind, now) => Set(s, c, k, p, kind, now)
    case DoGetInstant(c, k, now) => GetInstant(s, c, k, now)
    case DoGet(q, c, k, now) => Get(s, q, c, k, now)
    case DoResume(q, now) => Get(s, q, s.calls[q].c, s.calls[q].k, now)
    case DoComplete(q, p, ok, now) => Complete(s, q, p, ok, now)
    case DoSetDirty(c, k) => SetDirty(s, c, k)
    case DoCollect(now) => Collect(s, now)
  }

  function Run<P>(maxSize: int, steps: seq<Step<P>>): Option<State<P>>
    decreases |steps|
  {
    if steps == [] then Some(Init(maxSize))
    else
      match Run(maxSize, steps[..|steps| - 1])
      case None => None
      case Some(s) => if Enabled(s, steps[|steps| - 1]) then Some(Apply(s, steps[|steps| - 1])) else None
  }

  /** Every beginning of a run is one. */
  lemma {:induction false} BeginningRuns<P>(maxSize: int, steps: seq<Step<P>>, i: nat)
    requires Run(maxSize, steps).Some? && i <= |steps|
    ensures Run(maxSize, steps[..i]).Some?
    ensures i < |steps| ==> Enabled(Run(maxSize, steps[..i]).value, steps[i])
                            && Run(maxSize, steps[..i + 1]) == Some(Apply(Run(maxSize, steps[..i]).value, steps[i]))
    decreases |steps|
  {
    var last := |steps| - 1;
    if i < last {
      BeginningRuns(maxSize, steps[..last], i);
      assert steps[..last][..i] == steps[..i] && steps[..last][..i + 1] == steps[..i + 1];
    } else {
      assert steps[..|steps|] == steps;
    }
  }

  /** One more step of a run. */
  lemma Extend<P>(maxSize: int, steps: seq<Step<P>>, s: State<P>, a: Step<P>)
    returns (longer: seq<Step<P>>, t: State<P>)
    requires Run(maxSize, steps) == Some(s) && Enabled(s, a)
    ensures longer == steps + [a] && t == Apply(s, a) && Run(maxSize, longer) == Some(t)
  {
    longer, t := steps + [a], Apply(s, a);
    assert longer[..|longer| - 1] == steps;
  }
}
