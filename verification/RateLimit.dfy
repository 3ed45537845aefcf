/** The sliding-window rate limiter. It stores at most `threshold` timestamps per key, in a cache entry that
itself expires, and still answers as if it had the whole history of requests.
 */
module RateLimit {
  import opened Wrappers
  import opened OrderedMap
  import opened CacheModel
  import opened CacheSizes
  import opened CacheEviction
  import opened CacheWaiters

  datatype Config = Config(bucket: nat, threshold: int, windowMs: int)

  /** The timestamps after `cut`. */
  function Younger(ts: seq<int>, cut: int): seq<int> {
    if ts == [] then []
    else if ts[0] > cut then [ts[0]] + Younger(ts[1..], cut)
    else Younger(ts[1..], cut)
  }

  /** It keeps every timestamp after `cut`, as often as it occurs, and no other. */
  lemma {:induction false} YoungerCounts(ts: seq<int>, cut: int, x: int)
    ensures multiset(Younger(ts, cut))[x] == if x > cut then multiset(ts)[x] else 0
  {
    if ts != [] {
      YoungerCounts(ts[1..], cut, x);
      assert ts == [ts[0]] + ts[1..];
    }
  }

  /** The last `threshold` timestamps, as the splice at the front leaves them. */
  function Cap(ts: seq<int>, threshold: int): seq<int> {
    if |ts| <= threshold then ts else if threshold < 0 then [] else ts[|ts| - threshold..]
  }

  function Stored(r: Instant<seq<int>>): seq<int> {
    if r.Hit? && r.content.Value? then r.content.p else []
  }

  function Recorded(cfg: Config, s: State<seq<int>>, k: string, now: nat): seq<int> {
    Cap(Younger(Stored(Peek(s, cfg.bucket, k, now)), now - cfg.windowMs) + [now], cfg.threshold)
  }

  function Record(cfg: Config, s: State<seq<int>>, k: string, now: nat): State<seq<int>> {
    Set(GetInstant(s, cfg.bucket, k, now), cfg.bucket, k, Recorded(cfg, s, k, now), AsValue, now)
  }

  predicate RecordAllowed(cfg: Config, s: State<seq<int>>, k: string, now: nat) {
    |Recorded(cfg, s, k, now)| < cfg.threshold
  }

  predicate IsOverLimit(cfg: Config, s: State<seq<int>>, k: string, now: nat) {
    && Peek(s, cfg.bucket, k, now).Hit?
    && |Younger(Stored(Peek(s, cfg.bucket, k, now)), now - cfg.windowMs)| >= cfg.threshold
  }

  function Reset(cfg: Config, s: State<seq<int>>, k: string, now: nat): State<seq<int>> {
    Set(s, cfg.bucket, k, [], AsValue, now)
  }

  // ---- Histories

  type History = map<string, seq<int>>

  /** Every record of the key since its last reset. */
  function Of(h: History, k: string): seq<int> {
    if k in h then h[k] else []
  }

  ghost predicate Sorted(ts: seq<int>) {
    forall i, j :: 0 <= i < j < |ts| ==> ts[i] <= ts[j]
  }

  ghost predicate UpTo(ts: seq<int>, bound: int) {
    forall i :: 0 <= i < |ts| ==> ts[i] <= bound
  }

  /** `ts` is the end of the history `all`, long enough or lacking only what is no longer young at `cut`. */
  ghost predicate Summary(ts: seq<int>, all: seq<int>, cut: int, threshold: int) {
    && |ts| <= |all| && ts == all[|all| - |ts|..]
    && (|ts| >= threshold || UpTo(all[..|all| - |ts|], cut))
  }

  lemma {:induction false} YoungerOfParts(a: seq<int>, b: seq<int>, cut: int)
    ensures Younger(a + b, cut) == Younger(a, cut) + Younger(b, cut)
  {
    if a == [] {
      assert a + b == b;
    } else {
      assert (a + b)[1..] == a[1..] + b;
      YoungerOfParts(a[1..], b, cut);
    }
  }

  lemma {:induction false} YoungerNone(ts: seq<int>, cut: int)
    ensures Younger(ts, cut) == [] <==> UpTo(ts, cut)
  {
    if ts != [] {
      YoungerNone(ts[1..], cut);
      assert UpTo(ts, cut) ==> forall i :: 0 <= i < |ts[1..]| ==> ts[1..][i] == ts[i + 1];
      assert forall i :: 1 <= i < |ts| ==> ts[i] == ts[1..][i - 1];
    }
  }

  lemma {:induction false} YoungerAll(ts: seq<int>, cut: int)
    requires forall i :: 0 <= i < |ts| ==> ts[i] > cut
    ensures Younger(ts, cut) == ts
  {
    if ts != [] {
      YoungerAll(ts[1..], cut);
    }
  }

  /** On a sorted list the filter keeps an end of the list and drops what is not young. */
  lemma {:induction false} YoungerIsEnd(ts: seq<int>, cut: int)
    requires Sorted(ts)
    ensures var y := Younger(ts, cut);
            |y| <= |ts| && y == ts[|ts| - |y|..] && UpTo(ts[..|ts| - |y|], cut)
  {
    if ts != [] {
      if ts[0] > cut {
        YoungerAll(ts, cut);
      } else {
        YoungerIsEnd(ts[1..], cut);
        var y := Younger(ts, cut);
        assert forall i :: 1 <= i < |ts| - |y| ==> ts[i] == ts[1..][..|ts| - 1 - |y|][i - 1];
      }
    }
  }

  /** A summary made at `made` counts, at any later time, up to the threshold as the history does. */
  lemma SummaryCounts(ts: seq<int>, all: seq<int>, made: int, cut: int, threshold: int)
    requires Sorted(all) && Summary(ts, all, made, threshold) && made <= cut
    ensures |Younger(ts, cut)| == |Younger(all, cut)|
            || (|Younger(ts, cut)| >= threshold && |Younger(all, cut)| >= threshold)
  {
    var dropped := all[..|all| - |ts|];
    assert all == dropped + ts;
    YoungerOfParts(dropped, ts, cut);
    YoungerNone(dropped, cut);
    if !UpTo(dropped, cut) {
      YoungerAll(ts, cut);
    }
  }

  /** Filtering a summary drops only what is no longer young. */
  lemma FilterSummary(ts: seq<int>, all: seq<int>, made: int, cut: int, threshold: int)
    requires Sorted(all) && Summary(ts, all, made, threshold) && made <= cut
    ensures Summary(Younger(ts, cut), all, cut, threshold)
  {
    YoungerIsEnd(ts, cut);
    var y := Younger(ts, cut);
    var n, m := |all| - |ts|, |ts| - |y|;
    assert y == all[|all| - |y|..];
    forall i | 0 <= i < |all| - |y| && |y| < threshold
      ensures all[i] <= cut
    {
      if m > 0 {
        assert all[n + m - 1] == ts[..m][m - 1] <= cut;
        assert i < n + m - 1 ==> all[i] <= all[n + m - 1];
      } else {
        assert all[i] == all[..n][i];
      }
    }
  }

  lemma AppendSummary(ts: seq<int>, all: seq<int>, now: int, cut: int, threshold: int)
    requires Summary(ts, all, cut, threshold)
    ensures Summary(ts + [now], all + [now], cut, threshold)
  {
    var long := all + [now];
    assert long[|long| - |ts| - 1..] == ts + [now];
    assert long[..|long| - |ts| - 1] == all[..|all| - |ts|];
  }

  lemma CapSummary(ts: seq<int>, all: seq<int>, cut: int, threshold: int)
    requires Summary(ts, all, cut, threshold)
    ensures Summary(Cap(ts, threshold), all, cut, threshold)
  {
    var capped := Cap(ts, threshold);
    assert capped == all[|all| - |capped|..];
  }

  /** Filtering, appending the present time and capping makes a summary of the longer history. */
  lemma SummaryExtends(ts: seq<int>, all: seq<int>, made: int, now: int, cut: int, threshold: int)
    requires Sorted(all) && UpTo(all, now) && Summary(ts, all, made, threshold) && made <= cut
    ensures Sorted(all + [now]) && UpTo(all + [now], now)
    ensures Summary(Cap(Younger(ts, cut) + [now], threshold), all + [now], cut, threshold)
  {
    FilterSummary(ts, all, made, cut, threshold);
    AppendSummary(Younger(ts, cut), all, now, cut, threshold);
    CapSummary(Younger(ts, cut) + [now], all + [now], cut, threshold);
  }

  // ---- The cache entry against the history

  /** What the limiter's entry for `k` says about the history of `k`. */
  ghost predicate Agrees(cfg: Config, e: Option<Entry<seq<int>>>, all: seq<int>, now: int) {
    && Sorted(all) && UpTo(all, now)
    && match e
       case None => UpTo(all, now - cfg.windowMs)
       case Some(x) =>
         var made := x.timeout - cfg.windowMs;
         && x.content.Value? && made <= now && UpTo(all, made)
         && Summary(x.content.p, all, made - cfg.windowMs, cfg.threshold)
  }

  ghost predicate Inv(cfg: Config, s: State<seq<int>>, h: History, now: int) {
    && KeysDistinct(s)
    && cfg.bucket < |s.data| && s.data[cfg.bucket].timeoutMs == cfg.windowMs
    && forall k :: Agrees(cfg, EntryAt(s, cfg.bucket, k), Of(h, k), now)
  }

  lemma HitSummarises(cfg: Config, e: Entry<seq<int>>, all: seq<int>, before: int, now: nat) returns (made: int)
    requires Agrees(cfg, Some(e), all, before) && before <= now <= e.timeout
    ensures made <= now - cfg.windowMs && Summary(e.content.p, all, made, cfg.threshold)
    ensures UpTo(all, now)
  {
    made := e.timeout - 2 * cfg.windowMs;
  }

  lemma MissSummarises(cfg: Config, e: Option<Entry<seq<int>>>, all: seq<int>, before: int, now: nat)
    requires Agrees(cfg, e, all, before) && before <= now && (e.Some? ==> e.value.timeout < now)
    ensures UpTo(all, now - cfg.windowMs) && UpTo(all, now)
    ensures Summary([], all, now - cfg.windowMs, cfg.threshold)
  {
    assert all[..|all|] == all;
  }

  /** Whatever is found in the cache, expired or not, is a summary of the history at this time. */
  lemma FoundSummarises(cfg: Config, s: State<seq<int>>, h: History, k: string, before: int, now: nat)
    returns (made: int)
    requires Inv(cfg, s, h, before) && before <= now
    ensures made <= now - cfg.windowMs
    ensures Summary(Stored(Peek(s, cfg.bucket, k, now)), Of(h, k), made, cfg.threshold)
    ensures !Peek(s, cfg.bucket, k, now).Hit? ==> UpTo(Of(h, k), now - cfg.windowMs)
    ensures Sorted(Of(h, k)) && UpTo(Of(h, k), now)
  {
    var e, all := EntryAt(s, cfg.bucket, k), Of(h, k);
    assert Agrees(cfg, e, all, before);
    if e.Some? && e.value.timeout >= now {
      made := HitSummarises(cfg, e.value, all, before, now);
    } else {
      made := now - cfg.windowMs;
      MissSummarises(cfg, e, all, before, now);
    }
  }

  /** isOverLimit says whether at least `threshold` records since the last reset are younger than the window
      -- always when the threshold is positive; with a threshold of zero or less, exactly when an unexpired
      entry exists. */
  lemma OverLimitExact(cfg: Config, s: State<seq<int>>, h: History, k: string, before: int, now: nat)
    requires Inv(cfg, s, h, before) && before <= now
    ensures IsOverLimit(cfg, s, k, now) == (|Younger(Of(h, k), now - cfg.windowMs)| >= cfg.threshold)
            <==> cfg.threshold >= 1 || Peek(s, cfg.bucket, k, now).Hit?
  {
    var made := FoundSummarises(cfg, s, h, k, before, now);
    SummaryAnswers(cfg, Stored(Peek(s, cfg.bucket, k, now)), Of(h, k), made, now - cfg.windowMs, now);
    YoungerNone(Of(h, k), now - cfg.windowMs);
  }

  /** The answers from a summary are those from the history. */
  lemma SummaryAnswers(cfg: Config, ts: seq<int>, all: seq<int>, made: int, cut: int, now: int)
    requires Sorted(all) && Summary(ts, all, made, cfg.threshold) && made <= cut
    ensures |Younger(ts, cut)| >= cfg.threshold <==> |Younger(all, cut)| >= cfg.threshold
    ensures |Cap(Younger(ts, cut) + [now], cfg.threshold)| < cfg.threshold <==> |Younger(all, cut)| + 1 < cfg.threshold
  {
    SummaryCounts(ts, all, made, cut, cfg.threshold);
    CappedLength(Younger(ts, cut), now, cfg.threshold);
  }

  lemma CappedLength(young: seq<int>, now: int, threshold: int)
    ensures |Cap(young + [now], threshold)| < threshold <==> |young| + 1 < threshold
  {
  }

  /** With a threshold of zero an empty history is at the limit, but without an entry isOverLimit does not say so. */
  lemma ZeroThreshold(cfg: Config, s: State<seq<int>>, k: string, now: nat)
    requires cfg.threshold == 0 && Registered(cfg, s)
    ensures !IsOverLimit(cfg, s, k, now) && |Younger(Of(map[], k), now - cfg.windowMs)| >= cfg.threshold
  {
    assert Peek(s, cfg.bucket, k, now) == Miss;
  }

  /** record says whether the young records, this one included, are fewer than the threshold. */
  lemma RecordExact(cfg: Config, s: State<seq<int>>, h: History, k: string, before: int, now: nat)
    requires Inv(cfg, s, h, before) && before <= now
    ensures RecordAllowed(cfg, s, k, now)
            <==> |Younger(Of(h, k), now - cfg.windowMs)| + 1 < cfg.threshold
  {
    var made := FoundSummarises(cfg, s, h, k, before, now);
    SummaryAnswers(cfg, Stored(Peek(s, cfg.bucket, k, now)), Of(h, k), made, now - cfg.windowMs, now);
  }

  // ---- Runs

  datatype Step =
    | DoRecord(k: string)
    | DoReset(k: string)
    | DoQuery(k: string)
    | DoCollect
    | DoOther(a: CacheModel.Step<seq<int>>)

  /** A step of the shared cache on another collection. */
  predicate Elsewhere(cfg: Config, s: State<seq<int>>, a: CacheModel.Step<seq<int>>) {
    && Enabled(s, a)
    && match a
       case DoSet(c, _, _, _, _) => c != cfg.bucket
       case DoGetInstant(c, _, _) => c != cfg.bucket
       case DoGet(_, c, _, _) => c != cfg.bucket
       case DoResume(q, _) => s.calls[q].c != cfg.bucket
       case DoComplete(q, _, _, _) => s.fetches[q].c != cfg.bucket
       case DoSetDirty(c, _) => c != cfg.bucket
       case DoRegister(_, _) => true
       case DoCollect(_) => false
  }

  function Apply(cfg: Config, s: State<seq<int>>, a: Step, now: nat): State<seq<int>> {
    match a
    case DoRecord(k) => Record(cfg, s, k, now)
    case DoReset(k) => Reset(cfg, s, k, now)
    case DoQuery(k) => GetInstant(s, cfg.bucket, k, now)
    case DoCollect => Collect(s, now)
    case DoOther(b) => if Elsewhere(cfg, s, b) then CacheModel.Apply(s, b) else s
  }

  function Remember(h: History, a: Step, now: nat): History {
    match a
    case DoRecord(k) => h[k := Of(h, k) + [now]]
    case DoReset(k) => h[k := []]
    case _ => h
  }

  lemma StoreEntry(s: State<seq<int>>, c: nat, k: string, ts: seq<int>, now: nat)
    requires KeysDistinct(s) && c < |s.data|
    ensures var t := Set(s, c, k, ts, AsValue, now);
            && |t.data| == |s.data| && t.data[c].timeoutMs == s.data[c].timeoutMs
            && EntryAt(t, c, k).Some?
            && EntryAt(t, c, k).value.content == Value(ts)
            && EntryAt(t, c, k).value.timeout == now + s.data[c].timeoutMs
  {
    var col := s.data[c];
    DeleteLooksUp(col.values, k);
    PutLooksUp(Delete(col.values, k), k, Entry(Value(ts), col.getSize(ts), now + col.timeoutMs));
  }

  /** Storing a summary of the key's new history, with the entries of the other keys as they were. */
  lemma StoreKeepsInv(cfg: Config, s: State<seq<int>>, h: History, k: string, ts: seq<int>, all: seq<int>,
                      before: int, now: nat)
    requires Inv(cfg, s, h, before) && before <= now
    requires Sorted(all) && UpTo(all, now) && Summary(ts, all, now - cfg.windowMs, cfg.threshold)
    ensures Inv(cfg, Set(s, cfg.bucket, k, ts, AsValue, now), h[k := all], now)
  {
    var c := cfg.bucket;
    SetEntries(s, c, k, ts, AsValue, now);
    StoreEntry(s, c, k, ts, now);
    var t := Set(s, c, k, ts, AsValue, now);
    forall j
      ensures Agrees(cfg, EntryAt(t, c, j), Of(h[k := all], j), now)
    {
      if j != k {
        assert EntryAt(t, c, j) == EntryAt(s, c, j) && Of(h[k := all], j) == Of(h, j);
        assert Agrees(cfg, EntryAt(s, c, j), Of(h, j), before);
      }
    }
  }

  lemma QueryKeepsInv(cfg: Config, s: State<seq<int>>, h: History, k: string, before: int, now: nat)
    requires Inv(cfg, s, h, before) && before <= now
    ensures Inv(cfg, GetInstant(s, cfg.bucket, k, now), h, now)
  {
    GetInstantEntries(s, cfg.bucket, k, now);
    forall j
      ensures Agrees(cfg, EntryAt(GetInstant(s, cfg.bucket, k, now), cfg.bucket, j), Of(h, j), now)
    {
      assert Agrees(cfg, EntryAt(s, cfg.bucket, j), Of(h, j), before);
    }
  }

  lemma RecordedSummarises(cfg: Config, s: State<seq<int>>, all: seq<int>, k: string, made: int, now: nat)
    requires Sorted(all) && UpTo(all, now) && made <= now - cfg.windowMs
    requires Summary(Stored(Peek(s, cfg.bucket, k, now)), all, made, cfg.threshold)
    ensures Sorted(all + [now]) && UpTo(all + [now], now)
    ensures Summary(Recorded(cfg, s, k, now), all + [now], now - cfg.windowMs, cfg.threshold)
  {
    SummaryExtends(Stored(Peek(s, cfg.bucket, k, now)), all, made, now, now - cfg.windowMs, cfg.threshold);
  }

  lemma RecordKeepsInv(cfg: Config, s: State<seq<int>>, h: History, k: string, before: int, now: nat)
    requires Inv(cfg, s, h, before) && before <= now
    ensures Inv(cfg, Record(cfg, s, k, now), h[k := Of(h, k) + [now]], now)
  {
    var u, ts, all := GetInstant(s, cfg.bucket, k, now), Recorded(cfg, s, k, now), Of(h, k) + [now];
    var made := FoundSummarises(cfg, s, h, k, before, now);
    RecordedSummarises(cfg, s, Of(h, k), k, made, now);
    QueryKeepsInv(cfg, s, h, k, before, now);
    StoreKeepsInv(cfg, u, h, k, ts, all, now, now);
  }

  /** A collector run crowds out no unexpired entry of the limiter. */
  ghost predicate EvictsNothing(cfg: Config, s: State<seq<int>>, now: nat) {
    forall j: nat :: !Crowded(s, now, cfg.bucket, j)
  }

  lemma CollectKeepsInv(cfg: Config, s: State<seq<int>>, h: History, before: int, now: nat)
    requires Inv(cfg, s, h, before) && before <= now && AllEntriesOk(s.data) && EvictsNothing(cfg, s, now)
    ensures Inv(cfg, Collect(s, now), h, now)
  {
    var c, t := cfg.bucket, Collect(s, now);
    CollectEntries(s, now);
    CollectKeepsOptions(s.data, 0, s.size, s.maxSize, now, c);
    forall j
      ensures Agrees(cfg, EntryAt(t, c, j), Of(h, j), now)
    {
      assert Agrees(cfg, EntryAt(s, c, j), Of(h, j), before);
      assert EntryAt(t, c, j) == None || EntryAt(t, c, j) == EntryAt(s, c, j);
      if EntryAt(s, c, j).Some? && !Expired(EntryAt(s, c, j).value, now) {
        var i := EntryPlace(s, now, c, j);
        StaysIff(s, now, c, i);
      }
    }
  }

  /** A step on another collection leaves the limiter's entries alone. */
  lemma OtherKeepsEntries(cfg: Config, s: State<seq<int>>, a: CacheModel.Step<seq<int>>)
    requires KeysDistinct(s) && cfg.bucket < |s.data| && Elsewhere(cfg, s, a)
    ensures var t := CacheModel.Apply(s, a);
            && KeysDistinct(t) && cfg.bucket < |t.data|
            && t.data[cfg.bucket].timeoutMs == s.data[cfg.bucket].timeoutMs
            && forall k :: EntryAt(t, cfg.bucket, k) == EntryAt(s, cfg.bucket, k)
  {
    match a {
      case DoRegister(_, _) =>
      case DoSet(c, k, p, kind, now) => SetEntries(s, c, k, p, kind, now);
      case DoGetInstant(c, k, now) => GetInstantEntries(s, c, k, now);
      case DoGet(q, c, k, now) => GetElsewhere(cfg, s, q, c, k, now);
      case DoResume(q, now) => GetElsewhere(cfg, s, q, s.calls[q].c, s.calls[q].k, now);
      case DoComplete(q, p, ok, now) =>
        SetEntries(s, s.fetches[q].c, s.fetches[q].k, p, if ok then AsValue else AsError, now);
      case DoSetDirty(c, k) =>
        if c < |s.data| && Has(s.data[c].values, k) {
          PutEntries(s, c, k, Lookup(s.data[c].values, k).value.(timeout := -1));
        }
    }
  }

  lemma GetElsewhere(cfg: Config, s: State<seq<int>>, q: Caller, c: nat, k: string, now: nat)
    requires KeysDistinct(s) && cfg.bucket < |s.data| && c != cfg.bucket
    ensures var t := Get(s, q, c, k, now);
            KeysDistinct(t) && |t.data| == |s.data| && t.data[cfg.bucket] == s.data[cfg.bucket]
  {
    GetInstantEntries(s, c, k, now);
    if Peek(s, c, k, now).Miss? {
      PutEntries(s, c, k, Entry(Fetching(q), SizeAt(EntryAt(s, c, k)), -1));
    }
  }

  lemma OtherKeepsInv(cfg: Config, s: State<seq<int>>, h: History, a: CacheModel.Step<seq<int>>, before: int, now: nat)
    requires Inv(cfg, s, h, before) && before <= now && Elsewhere(cfg, s, a)
    ensures Inv(cfg, CacheModel.Apply(s, a), h, now)
  {
    OtherKeepsEntries(cfg, s, a);
    forall k
      ensures Agrees(cfg, EntryAt(CacheModel.Apply(s, a), cfg.bucket, k), Of(h, k), now)
    {
      assert Agrees(cfg, EntryAt(s, cfg.bucket, k), Of(h, k), before);
    }
  }

  /** A run: each step with its time, never going back. Steps on other collections interleave freely; a gentle run
      has no collector run that evicts an unexpired entry of the limiter. */
  ghost predicate Runs(cfg: Config, gentle: bool, s: State<seq<int>>, h: History, before: int, steps: seq<(Step, nat)>,
                       t: State<seq<int>>, h': History, after: int)
    decreases |steps|
  {
    if steps == [] then t == s && h' == h && after == before
    else
      var (a, now) := steps[0];
      && before <= now && Possible(cfg, gentle, s, a, now)
      && Runs(cfg, gentle, Apply(cfg, s, a, now), Remember(h, a, now), now, steps[1..], t, h', after)
  }

  ghost predicate Possible(cfg: Config, gentle: bool, s: State<seq<int>>, a: Step, now: nat) {
    && (a.DoCollect? && gentle ==> EvictsNothing(cfg, s, now))
    && (a.DoOther? ==> Elsewhere(cfg, s, a.a))
  }

  lemma StepKeepsAllEntries(cfg: Config, s: State<seq<int>>, a: Step, now: nat)
    requires AllEntriesOk(s.data)
    ensures AllEntriesOk(Apply(cfg, s, a, now).data)
  {
    match a {
      case DoRecord(k) =>
        GetKeepsEntries(s, 0, cfg.bucket, k, now);
        SetKeepsEntries(GetInstant(s, cfg.bucket, k, now), cfg.bucket, k, Recorded(cfg, s, k, now), AsValue, now);
      case DoReset(k) => SetKeepsEntries(s, cfg.bucket, k, [], AsValue, now);
      case DoCollect => CollectKeepsEntries(s, now);
      case DoQuery(k) => GetKeepsEntries(s, 0, cfg.bucket, k, now);
      case DoOther(b) =>
        if Elsewhere(cfg, s, b) {
          StepKeepsEntries(s, b);
        }
    }
  }

  lemma {:induction false} RunKeepsInv(cfg: Config, s: State<seq<int>>, h: History, before: int,
                                       steps: seq<(Step, nat)>, t: State<seq<int>>, h': History, after: int)
    requires Inv(cfg, s, h, before) && AllEntriesOk(s.data) && Runs(cfg, true, s, h, before, steps, t, h', after)
    ensures Inv(cfg, t, h', after)
    decreases |steps|
  {
    if steps != [] {
      var (a, now) := steps[0];
      match a {
        case DoRecord(k) => RecordKeepsInv(cfg, s, h, k, before, now);
        case DoReset(k) => StoreKeepsInv(cfg, s, h, k, [], [], before, now);
        case DoCollect => CollectKeepsInv(cfg, s, h, before, now);
        case DoQuery(k) => QueryKeepsInv(cfg, s, h, k, before, now);
        case DoOther(b) => OtherKeepsInv(cfg, s, h, b, before, now);
      }
      StepKeepsAllEntries(cfg, s, a, now);
      RunKeepsInv(cfg, Apply(cfg, s, a, now), Remember(h, a, now), now, steps[1..], t, h', after);
    }
  }

  /** The cache as the limiter's constructor leaves it: its collection is registered and empty. */
  ghost predicate Registered(cfg: Config, s: State<seq<int>>) {
    && KeysDistinct(s) && AllEntriesOk(s.data)
    && cfg.bucket < |s.data| && s.data[cfg.bucket].timeoutMs == cfg.windowMs && s.data[cfg.bucket].values == []
  }

  /** So it is on every cache that has run before, whatever was done to it. */
  lemma RegisteredAfterRun(maxSize: int, steps: seq<CacheModel.Step<seq<int>>>, threshold: int, windowMs: int,
                           getSize: seq<int> -> nat)
    requires Run(maxSize, steps).Some?
    ensures var s := Run(maxSize, steps).value;
            Registered(Config(|s.data|, threshold, windowMs), Register(s, windowMs, getSize))
  {
    RunKeepsEntries(maxSize, steps);
    RunKeepsWaits(maxSize, steps);
  }

  /** After any run of records, resets, queries and collections both answers are those of the full history. */
  lemma LimiterAgreesWithHistory(cfg: Config, s: State<seq<int>>, steps: seq<(Step, nat)>, t: State<seq<int>>,
                                 h: History, after: int, k: string, now: nat)
    requires cfg.threshold >= 1 && Registered(cfg, s)
    requires Runs(cfg, true, s, map[], 0, steps, t, h, after) && after <= now
    ensures IsOverLimit(cfg, t, k, now) <==> |Younger(Of(h, k), now - cfg.windowMs)| >= cfg.threshold
    ensures RecordAllowed(cfg, t, k, now) <==> |Younger(Of(h, k), now - cfg.windowMs)| + 1 < cfg.threshold
  {
    RunKeepsInv(cfg, s, map[], 0, steps, t, h, after);
    OverLimitExact(cfg, t, h, k, after, now);
    RecordExact(cfg, t, h, k, after, now);
  }

  // ---- What is left when entries are evicted for size

  ghost predicate EndOf(ts: seq<int>, all: seq<int>) {
    |ts| <= |all| && ts == all[|all| - |ts|..]
  }

  /** The entry for a key, if there is one, holds an end of the history of the key, at most `threshold` timestamps. */
  ghost predicate Backed(cfg: Config, e: Option<Entry<seq<int>>>, all: seq<int>, now: int) {
    && Sorted(all) && UpTo(all, now)
    && (e.Some? ==> e.value.content.Value? && EndOf(e.value.content.p, all) && |e.value.content.p| <= Limit(cfg))
  }

  function Limit(cfg: Config): nat {
    if cfg.threshold < 0 then 0 else cfg.threshold
  }

  ghost predicate AllBacked(cfg: Config, s: State<seq<int>>, h: History, now: int) {
    && KeysDistinct(s) && cfg.bucket < |s.data|
    && forall k :: Backed(cfg, EntryAt(s, cfg.bucket, k), Of(h, k), now)
  }

  lemma YoungerIsEndOf(ts: seq<int>, all: seq<int>, cut: int)
    requires EndOf(ts, all) && Sorted(all)
    ensures EndOf(Younger(ts, cut), all)
  {
    assert Sorted(ts);
    YoungerIsEnd(ts, cut);
    EndOfEnd(Younger(ts, cut), ts, all);
  }

  lemma AppendedIsEnd(ts: seq<int>, all: seq<int>, now: int)
    requires EndOf(ts, all)
    ensures EndOf(ts + [now], all + [now])
  {
  }

  lemma CappedIsEnd(ts: seq<int>, threshold: int)
    ensures EndOf(Cap(ts, threshold), ts) && |Cap(ts, threshold)| <= (if threshold < 0 then 0 else threshold)
  {
  }

  lemma LaterSorted(all: seq<int>, now: int)
    requires Sorted(all) && UpTo(all, now)
    ensures Sorted(all + [now]) && UpTo(all + [now], now)
  {
  }

  lemma RecordedIsEnd(cfg: Config, ts: seq<int>, all: seq<int>, cut: int, now: int)
    requires EndOf(ts, all) && Sorted(all)
    ensures var stored := Cap(Younger(ts, cut) + [now], cfg.threshold);
            EndOf(stored, all + [now]) && |stored| <= Limit(cfg)
  {
    var young := Younger(ts, cut);
    YoungerIsEndOf(ts, all, cut);
    AppendedIsEnd(young, all, now);
    CappedIsEnd(young + [now], cfg.threshold);
    EndOfEnd(Cap(young + [now], cfg.threshold), young + [now], all + [now]);
  }

  lemma EndOfEnd(a: seq<int>, b: seq<int>, c: seq<int>)
    requires EndOf(a, b) && EndOf(b, c)
    ensures EndOf(a, c)
  {
  }

  lemma StoreKeepsBacked(cfg: Config, s: State<seq<int>>, h: History, k: string, ts: seq<int>, all: seq<int>,
                         before: int, now: nat)
    requires AllBacked(cfg, s, h, before) && before <= now
    requires Sorted(all) && UpTo(all, now) && EndOf(ts, all) && |ts| <= Limit(cfg)
    ensures AllBacked(cfg, Set(s, cfg.bucket, k, ts, AsValue, now), h[k := all], now)
  {
    var c := cfg.bucket;
    SetEntries(s, c, k, ts, AsValue, now);
    StoreEntry(s, c, k, ts, now);
    var t := Set(s, c, k, ts, AsValue, now);
    forall j
      ensures Backed(cfg, EntryAt(t, c, j), Of(h[k := all], j), now)
    {
      if j != k {
        assert Backed(cfg, EntryAt(s, c, j), Of(h, j), before) && EntryAt(t, c, j) == EntryAt(s, c, j);
      }
    }
  }

  /** A step that changes no entry of the limiter, save that some may go. */
  lemma QuietKeepsBacked(cfg: Config, s: State<seq<int>>, t: State<seq<int>>, h: History, before: int, now: int)
    requires AllBacked(cfg, s, h, before) && before <= now && KeysDistinct(t) && cfg.bucket < |t.data|
    requires forall k :: EntryAt(t, cfg.bucket, k) == None || EntryAt(t, cfg.bucket, k) == EntryAt(s, cfg.bucket, k)
    ensures AllBacked(cfg, t, h, now)
  {
    forall k
      ensures Backed(cfg, EntryAt(t, cfg.bucket, k), Of(h, k), now)
    {
      assert Backed(cfg, EntryAt(s, cfg.bucket, k), Of(h, k), before);
    }
  }

  lemma FoundIsEnd(cfg: Config, s: State<seq<int>>, h: History, k: string, before: int, now: nat)
    requires AllBacked(cfg, s, h, before) && before <= now
    ensures EndOf(Stored(Peek(s, cfg.bucket, k, now)), Of(h, k)) && Sorted(Of(h, k)) && UpTo(Of(h, k), now)
  {
    assert Backed(cfg, EntryAt(s, cfg.bucket, k), Of(h, k), before);
  }

  lemma RecordedBacked(cfg: Config, s: State<seq<int>>, all: seq<int>, k: string, now: nat)
    requires Sorted(all) && EndOf(Stored(Peek(s, cfg.bucket, k, now)), all)
    ensures EndOf(Recorded(cfg, s, k, now), all + [now]) && |Recorded(cfg, s, k, now)| <= Limit(cfg)
  {
    RecordedIsEnd(cfg, Stored(Peek(s, cfg.bucket, k, now)), all, now - cfg.windowMs, now);
  }

  lemma RecordKeepsBacked(cfg: Config, s: State<seq<int>>, h: History, k: string, before: int, now: nat)
    requires AllBacked(cfg, s, h, before) && before <= now
    ensures AllBacked(cfg, Record(cfg, s, k, now), h[k := Of(h, k) + [now]], now)
  {
    FoundIsEnd(cfg, s, h, k, before, now);
    LaterSorted(Of(h, k), now);
    RecordedBacked(cfg, s, Of(h, k), k, now);
    var u := GetInstant(s, cfg.bucket, k, now);
    GetInstantEntries(s, cfg.bucket, k, now);
    QuietKeepsBacked(cfg, s, u, h, before, now);
    StoreKeepsBacked(cfg, u, h, k, Recorded(cfg, s, k, now), Of(h, k) + [now], now, now);
  }

  lemma {:induction false} RunKeepsBacked(cfg: Config, s: State<seq<int>>, h: History, before: int,
                                          steps: seq<(Step, nat)>, t: State<seq<int>>, h': History, after: int)
    requires AllBacked(cfg, s, h, before) && Runs(cfg, false, s, h, before, steps, t, h', after)
    ensures AllBacked(cfg, t, h', after)
    decreases |steps|
  {
    if steps != [] {
      var (a, now) := steps[0];
      match a {
        case DoRecord(k) => RecordKeepsBacked(cfg, s, h, k, before, now);
        case DoReset(k) => StoreKeepsBacked(cfg, s, h, k, [], [], before, now);
        case DoCollect =>
          CollectEntries(s, now);
          QuietKeepsBacked(cfg, s, Collect(s, now), h, before, now);
        case DoQuery(k) =>
          GetInstantEntries(s, cfg.bucket, k, now);
          QuietKeepsBacked(cfg, s, GetInstant(s, cfg.bucket, k, now), h, before, now);
        case DoOther(b) =>
          OtherKeepsEntries(cfg, s, b);
          QuietKeepsBacked(cfg, s, CacheModel.Apply(s, b), h, before, now);
      }
      RunKeepsBacked(cfg, Apply(cfg, s, a, now), Remember(h, a, now), now, steps[1..], t, h', after);
    }
  }

  /** After every run, evictions included, each entry of the limiter stores at most `threshold` timestamps, the latest
      of the key's history. */
  lemma StoredBounded(cfg: Config, s: State<seq<int>>, steps: seq<(Step, nat)>, t: State<seq<int>>,
                      h: History, after: int, k: string)
    requires Registered(cfg, s) && Runs(cfg, false, s, map[], 0, steps, t, h, after)
    requires EntryAt(t, cfg.bucket, k).Some?
    ensures var e := EntryAt(t, cfg.bucket, k).value;
            e.content.Value? && EndOf(e.content.p, Of(h, k)) && |e.content.p| <= Limit(cfg)
  {
    assert AllBacked(cfg, s, map[], 0);
    RunKeepsBacked(cfg, s, map[], 0, steps, t, h, after);
    assert Backed(cfg, EntryAt(t, cfg.bucket, k), Of(h, k), after);
  }

  /** An end of the history is over the limit only when the history is. */
  lemma EndAnswers(cfg: Config, ts: seq<int>, all: seq<int>, cut: int, now: int)
    requires EndOf(ts, all)
    ensures |Younger(ts, cut)| >= cfg.threshold ==> |Younger(all, cut)| >= cfg.threshold
    ensures |Cap(Younger(ts, cut) + [now], cfg.threshold)| >= cfg.threshold ==> |Younger(all, cut)| + 1 >= cfg.threshold
  {
    EndCounts(ts, all, cut);
    CappedLength(Younger(ts, cut), now, cfg.threshold);
  }

  /** Whatever is evicted, nobody is refused without cause: when isOverLimit holds, or record refuses, the full history
      is over the limit too. */
  lemma NeverOverWithoutCause(cfg: Config, s: State<seq<int>>, steps: seq<(Step, nat)>, t: State<seq<int>>,
                              h: History, after: int, k: string, now: nat)
    requires Registered(cfg, s) && Runs(cfg, false, s, map[], 0, steps, t, h, after) && after <= now
    ensures IsOverLimit(cfg, t, k, now) ==> |Younger(Of(h, k), now - cfg.windowMs)| >= cfg.threshold
    ensures !RecordAllowed(cfg, t, k, now) ==> |Younger(Of(h, k), now - cfg.windowMs)| + 1 >= cfg.threshold
  {
    assert AllBacked(cfg, s, map[], 0);
    RunKeepsBacked(cfg, s, map[], 0, steps, t, h, after);
    FoundIsEnd(cfg, t, h, k, after, now);
    EndAnswers(cfg, Stored(Peek(t, cfg.bucket, k, now)), Of(h, k), now - cfg.windowMs, now);
  }

  lemma EndCounts(ts: seq<int>, all: seq<int>, cut: int)
    requires EndOf(ts, all)
    ensures |Younger(ts, cut)| <= |Younger(all, cut)|
  {
    assert all == all[..|all| - |ts|] + ts;
    YoungerOfParts(all[..|all| - |ts|], ts, cut);
  }
}
