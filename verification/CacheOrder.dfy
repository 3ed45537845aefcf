/** The order of a collection's entries is the order in which they were last touched, so that what the collector
evicts for size was touched before everything it leaves.
 */
module CacheOrder {
  import opened Wrappers
  import opened OrderedMap
  import opened CacheModel
  import opened CacheSizes

  /** The last time a key was touched, as a position in the history of touches. */
  function LastAt(touches: seq<string>, k: string): int {
    var last := |touches| - 1;
    if touches == [] then -1 else if touches[last] == k then last else LastAt(touches[..last], k)
  }

  predicate Later(touches: seq<string>, a: string, b: string) {
    0 <= LastAt(touches, a) < LastAt(touches, b)
  }

  /** The entries are in the order of their last touches. */
  ghost predicate Recency<P>(m: OMap<string, Entry<P>>, touches: seq<string>) {
    && (forall i :: 0 <= i < |m| ==> 0 <= LastAt(touches, m[i].0))
    && (forall i, j :: 0 <= i < j < |m| ==> Later(touches, m[i].0, m[j].0))
  }

  lemma {:induction false} LastAtBound(touches: seq<string>, k: string)
    ensures -1 <= LastAt(touches, k) < |touches|
  {
    if touches != [] {
      LastAtBound(touches[..|touches| - 1], k);
    }
  }

  lemma OneMoreTouch(touches: seq<string>, k: string, x: string)
    ensures LastAt(touches + [k], x) == if x == k then |touches| else LastAt(touches, x)
  {
    assert (touches + [k])[..|touches|] == touches;
  }

  // ---- Changes of one Map

  lemma {:induction false} DeletePosition<P>(m: OMap<string, Entry<P>>, k: string) returns (i: nat)
    requires Has(m, k)
    ensures i < |m| && m[i].0 == k && Delete(m, k) == m[..i] + m[i + 1..]
  {
    if m[0].0 == k {
      i := 0;
    } else {
      i := DeletePosition(m[1..], k);
      i := i + 1;
    }
  }

  lemma {:induction false} DeleteMissing<P>(m: OMap<string, Entry<P>>, k: string)
    requires !Has(m, k)
    ensures Delete(m, k) == m && NoKey(m, k)
  {
    if m != [] {
      DeleteMissing(m[1..], k);
    }
  }

  ghost predicate NoKey<P>(m: OMap<string, Entry<P>>, k: string) {
    forall i :: 0 <= i < |m| ==> m[i].0 != k
  }

  ghost predicate SameKeys<P>(m: OMap<string, Entry<P>>, n: OMap<string, Entry<P>>) {
    |n| == |m| && forall i :: 0 <= i < |m| ==> n[i].0 == m[i].0
  }

  lemma CutKeepsRecency<P>(m: OMap<string, Entry<P>>, touches: seq<string>, i: nat)
    requires Recency(m, touches) && i < |m|
    ensures Recency(m[..i] + m[i + 1..], touches)
    ensures NoKey(m[..i] + m[i + 1..], m[i].0)
  {
    var cut := m[..i] + m[i + 1..];
    forall j | 0 <= j < |cut|
      ensures cut[j].0 != m[i].0
    {
      assert j < i ==> Later(touches, m[j].0, m[i].0);
      assert j >= i ==> Later(touches, m[i].0, m[j + 1].0);
    }
  }

  /** A key deleted and set again is the last one touched. */
  lemma TouchKeepsRecency<P>(m: OMap<string, Entry<P>>, touches: seq<string>, k: string, e: Entry<P>)
    requires Recency(m, touches)
    ensures Recency(Put(Delete(m, k), k, e), touches + [k])
  {
    if Has(m, k) {
      var i := DeletePosition(m, k);
      CutKeepsRecency(m, touches, i);
    } else {
      DeleteMissing(m, k);
    }
    AppendKeepsRecency(Delete(m, k), touches, k, e);
  }

  lemma AppendKeepsRecency<P>(m: OMap<string, Entry<P>>, touches: seq<string>, k: string, e: Entry<P>)
    requires Recency(m, touches) && NoKey(m, k)
    ensures Recency(Put(m, k, e), touches + [k])
  {
    NotThere(m, k);
    PutAfterDelete(m, k, e);
    forall i | 0 <= i < |m|
      ensures LastAt(touches + [k], m[i].0) == LastAt(touches, m[i].0) < |touches|
    {
      OneMoreTouch(touches, k, m[i].0);
      LastAtBound(touches, m[i].0);
    }
    OneMoreTouch(touches, k, k);
    var t := m + [(k, e)];
    forall i, j | 0 <= i < j < |t|
      ensures Later(touches + [k], t[i].0, t[j].0)
    {
      if j < |m| {
        assert Later(touches, m[i].0, m[j].0);
      }
    }
  }

  lemma {:induction false} NotThere<P>(m: OMap<string, Entry<P>>, k: string)
    requires NoKey(m, k)
    ensures !Has(m, k)
  {
    if m != [] {
      NotThere(m[1..], k);
    }
  }

  /** Setting a key that is there leaves every key at its place. */
  lemma {:induction false} PutInPlace<P>(m: OMap<string, Entry<P>>, k: string, e: Entry<P>)
    requires Has(m, k)
    ensures SameKeys(m, Put(m, k, e))
  {
    if m[0].0 != k {
      PutInPlace(m[1..], k, e);
      SameKeysBehind(m[0], m[1..], Put(m[1..], k, e));
    }
  }

  lemma SameKeysBehind<P>(x: (string, Entry<P>), m: OMap<string, Entry<P>>, n: OMap<string, Entry<P>>)
    requires SameKeys(m, n)
    ensures SameKeys([x] + m, [x] + n)
  {
  }

  lemma SameKeysKeepRecency<P>(m: OMap<string, Entry<P>>, n: OMap<string, Entry<P>>, touches: seq<string>)
    requires Recency(m, touches) && SameKeys(m, n)
    ensures Recency(n, touches)
  {
    forall i, j | 0 <= i < j < |n|
      ensures Later(touches, n[i].0, n[j].0)
    {
      assert Later(touches, m[i].0, m[j].0);
    }
  }

  lemma {:induction false} ExpireKeepsRecency<P>(col: Collection<P>, total: int, i: nat, now: nat, touches: seq<string>)
    requires Recency(col.values, touches) && i <= |col.values|
    ensures Recency(Expire(col, total, i, now).0.values, touches)
    decreases |col.values| - i
  {
    if i < |col.values| {
      if Expired(col.values[i].1, now) {
        CutKeepsRecency(col.values, touches, i);
        ExpireKeepsRecency(Removed(col, i), total - col.values[i].1.size, i, now, touches);
      } else {
        ExpireKeepsRecency(col, total, i + 1, now, touches);
      }
    }
  }

  lemma SuffixKeepsRecency<P>(m: OMap<string, Entry<P>>, touches: seq<string>, d: nat)
    requires Recency(m, touches) && d <= |m|
    ensures Recency(m[d..], touches)
  {
  }

  /** A collector run does to each collection what it does to one, at some total. */
  lemma {:induction false} CollectFromOne<P>(data: seq<Collection<P>>, c: nat, total: int, maxSize: int, now: nat,
                                             i: nat)
    returns (x: int)
    requires c <= |data| && i < |data|
    ensures i < |CollectFrom(data, c, total, maxSize, now).0|
    ensures CollectFrom(data, c, total, maxSize, now).0[i]
            == if i < c then data[i] else CollectOne(data[i], x, maxSize, now).0
    decreases |data| - c
  {
    CollectFromLength(data, c, total, maxSize, now);
    x := total;
    if c < |data| {
      var one := CollectOne(data[c], total, maxSize, now);
      var y := CollectFromOne(data[c := one.0], c + 1, one.1, maxSize, now, i);
      if i != c {
        x := y;
      }
    }
  }

  /** What a collector run leaves of a collection: the end of its unexpired entries. */
  lemma CollectLeaves<P>(s: State<P>, now: nat, c: nat, touches: seq<string>) returns (d: nat)
    requires c < |s.data| && Recency(s.data[c].values, touches)
    ensures c < |Collect(s, now).data| == |s.data|
    ensures var kept := Unexpired(s.data[c].values, now);
            && Recency(kept, touches)
            && d <= |kept| && Collect(s, now).data[c].values == kept[d..]
    ensures Recency(Collect(s, now).data[c].values, touches)
  {
    var col := s.data[c];
    var x := CollectFromOne(s.data, 0, s.size, s.maxSize, now, c);
    CollectFromLength(s.data, 0, s.size, s.maxSize, now);
    ExpireMeaning(col, x, 0, now);
    assert col.values[0..] == col.values;
    ExpireKeepsRecency(col, x, 0, now, touches);
    var kept := Expire(col, x, 0, now);
    d := EvictMeaning(kept.0, kept.1, s.maxSize);
    SuffixKeepsRecency(kept.0.values, touches, d);
  }

  // ---- Runs

  /** The key that a call of get touches: a hit moves it, and a marker for a key that was not there is put last. */
  function GetTouches<P>(s: State<P>, c: nat, k: string, now: nat): seq<string> {
    match Peek(s, c, k, now)
    case Hit(_) => [k]
    case Miss => if Has(s.data[c].values, k) then [] else [k]
    case _ => []
  }

  /** The keys of collection `c` that a step touches, one at most. */
  function Touched<P>(s: State<P>, a: Step<P>, c: nat): seq<string>
    requires Enabled(s, a)
  {
    match a
    case DoSet(d, k, _, kind, _) => if d == c && c < |s.data| && kind != AsFetching then [k] else []
    case DoGetInstant(d, k, now) => if d == c && Peek(s, c, k, now).Hit? then [k] else []
    case DoGet(_, d, k, now) => if d == c then GetTouches(s, c, k, now) else []
    case DoResume(q, now) => if s.calls[q].c == c then GetTouches(s, c, s.calls[q].k, now) else []
    case DoComplete(q, _, _, _) => if s.fetches[q].c == c && c < |s.data| then [s.fetches[q].k] else []
    case _ => []
  }

  function Touches<P>(maxSize: int, steps: seq<Step<P>>, c: nat): seq<string>
    decreases |steps|
  {
    if steps == [] then []
    else
      var front := steps[..|steps| - 1];
      match Run(maxSize, front)
      case None => []
      case Some(s) =>
        Touches(maxSize, front, c)
        + (if Enabled(s, steps[|steps| - 1]) then Touched(s, steps[|steps| - 1], c) else [])
  }

  ghost predicate RecencyAt<P>(s: State<P>, c: nat, touches: seq<string>) {
    c < |s.data| ==> Recency(s.data[c].values, touches)
  }

  lemma SetKeepsRecency<P>(s: State<P>, d: nat, k: string, p: P, kind: Kind, now: nat, c: nat, touches: seq<string>)
    requires RecencyAt(s, c, touches)
    ensures RecencyAt(Set(s, d, k, p, kind, now), c,
                      touches + if d == c && c < |s.data| && kind != AsFetching then [k] else [])
  {
    if d == c && c < |s.data| {
      var m := s.data[c].values;
      if kind == AsFetching {
        if Has(m, k) {
          var i := DeletePosition(m, k);
          CutKeepsRecency(m, touches, i);
        } else {
          DeleteMissing(m, k);
        }
        assert touches + [] == touches;
      } else {
        var t := Set(s, c, k, p, kind, now);
        var size := if kind == AsValue then s.data[c].getSize(p) else 8;
        var content := if kind == AsValue then Value(p) else Failure(p);
        TouchKeepsRecency(m, touches, k, Entry(content, size, now + s.data[c].timeoutMs));
      }
    } else {
      assert touches + [] == touches;
    }
  }

  lemma GetInstantKeepsRecency<P>(s: State<P>, d: nat, k: string, now: nat, c: nat, touches: seq<string>)
    requires RecencyAt(s, c, touches)
    ensures RecencyAt(GetInstant(s, d, k, now), c, touches + if d == c && Peek(s, c, k, now).Hit? then [k] else [])
  {
    if d == c && Peek(s, c, k, now).Hit? {
      TouchKeepsRecency(s.data[c].values, touches, k, Lookup(s.data[c].values, k).value);
    } else {
      assert touches + [] == touches;
    }
  }

  lemma GetKeepsRecency<P>(s: State<P>, q: Caller, d: nat, k: string, now: nat, c: nat, touches: seq<string>)
    requires RecencyAt(s, c, touches)
    ensures RecencyAt(Get(s, q, d, k, now), c, touches + if d == c then GetTouches(s, c, k, now) else [])
  {
    GetInstantKeepsRecency(s, d, k, now, c, touches);
    assert touches + [] == touches;
    if d == c && Peek(s, c, k, now).Miss? {
      var m := s.data[c].values;
      var e := Entry(Fetching(q), SizeAt(Lookup(m, k)), -1);
      if Has(m, k) {
        PutInPlace(m, k, e);
        SameKeysKeepRecency(m, Put(m, k, e), touches);
      } else {
        DeleteMissing(m, k);
        AppendKeepsRecency(m, touches, k, e);
      }
    }
  }

  lemma SetDirtyKeepsRecency<P>(s: State<P>, d: nat, k: string, c: nat, touches: seq<string>)
    requires RecencyAt(s, c, touches)
    ensures RecencyAt(SetDirty(s, d, k), c, touches)
  {
    if d == c && c < |s.data| && Has(s.data[c].values, k) {
      var m := s.data[c].values;
      var e := Lookup(m, k).value.(timeout := -1);
      PutInPlace(m, k, e);
      SameKeysKeepRecency(m, Put(m, k, e), touches);
    }
  }

  lemma StepKeepsRecency<P>(s: State<P>, a: Step<P>, c: nat, touches: seq<string>)
    requires RecencyAt(s, c, touches) && Enabled(s, a)
    ensures RecencyAt(Apply(s, a), c, touches + Touched(s, a, c))
  {
    assert touches + [] == touches;
    match a {
      case DoRegister(_, _) =>
      case DoSet(d, k, p, kind, now) => SetKeepsRecency(s, d, k, p, kind, now, c, touches);
      case DoGetInstant(d, k, now) => GetInstantKeepsRecency(s, d, k, now, c, touches);
      case DoGet(q, d, k, now) => GetKeepsRecency(s, q, d, k, now, c, touches);
      case DoResume(q, now) => GetKeepsRecency(s, q, s.calls[q].c, s.calls[q].k, now, c, touches);
      case DoComplete(q, p, ok, now) =>
        SetKeepsRecency(s, s.fetches[q].c, s.fetches[q].k, p, if ok then AsValue else AsError, now, c, touches);
      case DoSetDirty(d, k) => SetDirtyKeepsRecency(s, d, k, c, touches);
      case DoCollect(now) =>
        if c < |s.data| {
          var d := CollectLeaves(s, now, c, touches);
        } else {
          CollectFromLength(s.data, 0, s.size, s.maxSize, now);
        }
    }
  }

  /** In every reachable state each collection's entries are in the order of their last touches. */
  lemma {:induction false} RunKeepsRecency<P>(maxSize: int, steps: seq<Step<P>>, c: nat)
    requires Run(maxSize, steps).Some?
    ensures RecencyAt(Run(maxSize, steps).value, c, Touches(maxSize, steps, c))
    decreases |steps|
  {
    if steps != [] {
      var front := steps[..|steps| - 1];
      RunKeepsRecency(maxSize, front, c);
      StepKeepsRecency(Run(maxSize, front).value, steps[|steps| - 1], c, Touches(maxSize, front, c));
    }
  }

  lemma EndHolds<T>(s: seq<T>, d: nat)
    requires d <= |s|
    ensures forall n :: d <= n < |s| ==> s[n] in s[d..]
  {
    forall n | d <= n < |s|
      ensures s[n] in s[d..]
    {
      assert s[d..][n - d] == s[n];
    }
  }

  /** What a collector run evicts for size was touched before everything it leaves in the collection. */
  lemma EvictsLeastRecent<P>(maxSize: int, steps: seq<Step<P>>, s: State<P>, c: nat, now: nat,
                             x: (string, Entry<P>), y: (string, Entry<P>))
    requires Run(maxSize, steps) == Some(s) && c < |s.data| && c < |Collect(s, now).data|
    requires x in s.data[c].values && (x.1.timeout <= 0 || x.1.timeout >= now)
    requires x !in Collect(s, now).data[c].values
    requires y in Collect(s, now).data[c].values
    ensures Later(Touches(maxSize, steps, c), x.0, y.0)
  {
    var touches := Touches(maxSize, steps, c);
    RunKeepsRecency(maxSize, steps, c);
    var d := CollectLeaves(s, now, c, touches);
    var kept := Unexpired(s.data[c].values, now);
    UnexpiredIffKept(s.data[c].values, now, x);
    EarlierInOrder(kept, touches, d, x, y);
  }

  lemma EarlierInOrder<P>(kept: OMap<string, Entry<P>>, touches: seq<string>, d: nat,
                          x: (string, Entry<P>), y: (string, Entry<P>))
    requires Recency(kept, touches) && d <= |kept| && x in kept && x !in kept[d..] && y in kept[d..]
    ensures Later(touches, x.0, y.0)
  {
    EndHolds(kept, d);
    var n :| 0 <= n < |kept| && kept[n] == x;
    var m :| 0 <= m < |kept[d..]| && kept[d..][m] == y;
    assert Later(touches, kept[n].0, kept[d + m].0);
  }
}
