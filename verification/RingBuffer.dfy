/** The fixed-memory ring buffer: two counters that only grow apart over an array used modulo its length. */
module RingBuffer {
  import Spans

  function Min(a: nat, b: nat): nat {
    if a < b then a else b
  }

  // ---- Modular windows over the storage

  /** The slot of a counter position: the remainder by the capacity, as repeated subtraction. */
  function Slot(p: nat, c: nat): (r: nat)
    requires c > 0
    ensures r < c
  {
    if p < c then p else Slot(p - c, c)
  }

  lemma {:induction false} SlotIsRemainder(p: nat, c: nat)
    requires c > 0
    ensures Slot(p, c) == p % c
  {
    if p >= c {
      SlotIsRemainder(p - c, c);
      RemainderLess(p, c);
    }
  }

  lemma RemainderLess(p: nat, c: nat)
    requires 0 < c <= p
    ensures p % c == (p - c) % c
  {
    var d := p / c - (p - c) / c - 1;
    assert p == c * (p / c) + p % c;
    assert p - c == c * ((p - c) / c) + (p - c) % c;
    assert c * d == (p - c) % c - p % c;
    MultipleBound(c, d);
  }

  lemma MultipleBound(c: nat, d: int)
    requires c > 0
    ensures d >= 1 ==> c * d >= c
    ensures d <= -1 ==> c * d + c <= 0
  {
    if d >= 1 {
      assert c * d == c + c * (d - 1);
    } else if d <= -1 {
      assert c * d + c == c * (d + 1);
    }
  }

  /** The slot of `p + i`, for a step of at most one turn. */
  lemma {:induction false} SlotAfter(p: nat, i: nat, c: nat)
    requires c > 0 && i <= c
    ensures Slot(p + i, c) == if Slot(p, c) + i < c then Slot(p, c) + i else Slot(p, c) + i - c
  {
    if p >= c {
      SlotAfter(p - c, i, c);
    }
  }

  /** The slots of the counter positions `from..to`. */
  function Window<T>(s: seq<T>, from: nat, upto: nat): (w: seq<T>)
    requires |s| > 0 && from <= upto
    ensures |w| == upto - from
  {
    seq(upto - from, i requires 0 <= i < upto - from => s[Slot(from + i, |s|)])
  }

  lemma WindowAt<T>(s: seq<T>, from: nat, upto: nat, p: nat)
    requires |s| > 0 && from <= p < upto
    ensures Window(s, from, upto)[p - from] == s[Slot(p, |s|)]
  {
  }

  lemma WindowParts<T>(s: seq<T>, from: nat, mid: nat, upto: nat)
    requires |s| > 0 && from <= mid <= upto
    ensures Window(s, from, upto) == Window(s, from, mid) + Window(s, mid, upto)
  {
  }

  ghost predicate SameAt<T>(s: seq<T>, t: seq<T>, p: nat)
    requires |t| == |s| > 0
  {
    t[Slot(p, |s|)] == s[Slot(p, |s|)]
  }

  /** Windows over the same slots of two storages that agree there. */
  lemma WindowsAgree<T>(s: seq<T>, t: seq<T>, from: nat, upto: nat)
    requires |t| == |s| > 0 && from <= upto
    requires forall p :: from <= p < upto ==> SameAt(s, t, p)
    ensures Window(t, from, upto) == Window(s, from, upto)
  {
    forall i | 0 <= i < upto - from
      ensures Window(t, from, upto)[i] == Window(s, from, upto)[i]
    {
      assert SameAt(s, t, from + i);
    }
  }

  /** A contiguous section of the storage is the window that starts there. */
  lemma SectionIsWindow<T>(s: seq<T>, start: nat, from: nat, upto: nat)
    requires |s| > 0 && start == Slot(from, |s|) && from <= upto && start + (upto - from) <= |s|
    ensures Window(s, from, upto) == s[start..start + (upto - from)]
  {
    forall i | 0 <= i < upto - from
      ensures Window(s, from, upto)[i] == s[start + i]
    {
      SlotAfter(from, i, |s|);
    }
  }

  function LastOf<T>(s: seq<T>, n: nat): seq<T> {
    if |s| <= n then s else s[|s| - n..]
  }

  /** `t` is `s` with `data` written from counter position `at` on, and every other slot as it was. */
  ghost predicate Wrote<T>(s: seq<T>, t: seq<T>, at: nat, data: seq<T>) {
    && |t| == |s| > 0 && |data| <= |s|
    && Window(t, at, at + |data|) == data
    && Window(t, at + |data|, at + |s|) == Window(s, at + |data|, at + |s|)
  }

  lemma UnwrittenSlot<T>(s: seq<T>, t: seq<T>, at: nat, data: seq<T>, p: nat)
    requires Wrote(s, t, at, data) && at + |data| <= p < at + |s|
    ensures t[Slot(p, |s|)] == s[Slot(p, |s|)]
  {
    WindowAt(t, at + |data|, at + |s|, p);
    WindowAt(s, at + |data|, at + |s|, p);
  }

  /** The window that ends where the written one starts keeps its contents, if the two fit the storage. */
  lemma WroteAfter<T>(s: seq<T>, t: seq<T>, at: nat, data: seq<T>, from: nat)
    requires Wrote(s, t, at, data) && from <= at && at + |data| <= from + |s|
    ensures Window(t, from, at) == Window(s, from, at)
  {
    forall p | from <= p < at
      ensures SameAt(s, t, p)
    {
      UnwrittenSlot(s, t, at, data, p + |s|);
    }
    WindowsAgree(s, t, from, at);
  }

  /** The window that starts where the written one ends keeps its contents, if the two fit the storage. */
  lemma WroteBefore<T>(s: seq<T>, t: seq<T>, at: nat, data: seq<T>, upto: nat)
    requires Wrote(s, t, at, data) && at + |data| <= upto <= at + |s|
    ensures Window(t, at + |data|, upto) == Window(s, at + |data|, upto)
  {
    forall p | at + |data| <= p < upto
      ensures SameAt(s, t, p)
    {
      UnwrittenSlot(s, t, at, data, p);
    }
    WindowsAgree(s, t, at + |data|, upto);
  }

  /** The storage after the two copies around its end. */
  ghost predicate SplitAround<T>(s: seq<T>, t: seq<T>, start: nat, data: seq<T>)
    requires |t| == |s| && start < |s| && |data| <= |s|
  {
    forall k :: 0 <= k < |s| ==>
      t[k] == if start <= k < start + |data| then data[k - start]
              else if k + |s| - start < |data| then data[k + |s| - start]
              else s[k]
  }

  /** Counter position `p` holds what writing `data` from `at` on leaves there. */
  ghost predicate WrittenAt<T>(s: seq<T>, t: seq<T>, at: nat, data: seq<T>, p: nat)
    requires |t| == |s| > 0 && at <= p
  {
    t[Slot(p, |s|)] == if p - at < |data| then data[p - at] else s[Slot(p, |s|)]
  }

  lemma SplitIsWritten<T>(s: seq<T>, t: seq<T>, at: nat, data: seq<T>)
    requires |t| == |s| > 0 && |data| <= |s| && SplitAround(s, t, Slot(at, |s|), data)
    ensures forall p :: at <= p < at + |s| ==> WrittenAt(s, t, at, data, p)
  {
    forall p | at <= p < at + |s|
      ensures WrittenAt(s, t, at, data, p)
    {
      SlotAfter(at, p - at, |s|);
    }
  }

  lemma WrittenWindow<T>(s: seq<T>, t: seq<T>, at: nat, data: seq<T>)
    requires |t| == |s| > 0
    requires forall p :: at <= p < at + |data| ==> WrittenAt(s, t, at, data, p)
    ensures Window(t, at, at + |data|) == data
  {
    forall i | 0 <= i < |data|
      ensures Window(t, at, at + |data|)[i] == data[i]
    {
      assert WrittenAt(s, t, at, data, at + i);
    }
  }

  lemma WrittenIsWrote<T>(s: seq<T>, t: seq<T>, at: nat, data: seq<T>)
    requires |t| == |s| > 0 && |data| <= |s|
    requires forall p :: at <= p < at + |s| ==> WrittenAt(s, t, at, data, p)
    ensures Wrote(s, t, at, data)
  {
    WrittenWindow(s, t, at, data);
    forall p | at + |data| <= p < at + |s|
      ensures SameAt(s, t, p)
    {
      assert WrittenAt(s, t, at, data, p);
    }
    WindowsAgree(s, t, at + |data|, at + |s|);
  }

  /** The two copies write one window. */
  lemma SplitWrite<T>(s: seq<T>, t: seq<T>, at: nat, data: seq<T>)
    requires |t| == |s| > 0 && |data| <= |s| && SplitAround(s, t, Slot(at, |s|), data)
    ensures Wrote(s, t, at, data)
  {
    SplitIsWritten(s, t, at, data);
    WrittenIsWrote(s, t, at, data);
  }

  /** The read position after the head has moved to `head`: pushed on when the ring would hold too much. */
  function Pushed(read: nat, head: nat, c: nat): nat {
    if head > read + c then head - c else read
  }

  /** The last positions of a window. */
  lemma LastOfWindow<T>(s: seq<T>, from: nat, mid: nat, upto: nat)
    requires |s| > 0 && from <= mid <= upto
    ensures Window(s, mid, upto) == LastOf(Window(s, from, upto), upto - mid)
  {
    WindowParts(s, from, mid, upto);
  }

  lemma ProducedWindow<T>(s: seq<T>, read: nat, write: nat, head: nat)
    requires |s| > 0 && read <= write <= head
    ensures Window(s, Pushed(read, head, |s|), head) == LastOf(Window(s, read, write) + Window(s, write, head), |s|)
  {
    WindowParts(s, read, write, head);
    LastOfWindow(s, read, Pushed(read, head, |s|), head);
  }

  /** Dropping from the front what no longer fits in front of the end of `span`. */
  lemma LastOfBoth<T>(live: seq<T>, span: seq<T>, c: nat)
    requires |live| <= c
    ensures var added := LastOf(span, c);
            LastOf(live + span, c) == LastOf(live, Min(|live|, c - |added|)) + added
  {
  }

  /** What is kept of the contents is still there after the write behind them. */
  lemma KeptWindow<T>(s: seq<T>, t: seq<T>, read: nat, write: nat, added: seq<T>, from: nat)
    requires Wrote(s, t, write, added) && read <= from <= write && write + |added| <= from + |s|
    ensures Window(t, from, write) == LastOf(Window(s, read, write), write - from)
  {
    LastOfWindow(s, read, from, write);
    WroteAfter(s, t, write, added, from);
  }

  lemma ProducedSpan<T>(s: seq<T>, t: seq<T>, read: nat, write: nat, span: seq<T>)
    requires |s| > 0 && read <= write <= read + |s|
    requires Wrote(s, t, write, LastOf(span, |s|))
    ensures var head := write + |LastOf(span, |s|)|;
            Window(t, Pushed(read, head, |s|), head) == LastOf(Window(s, read, write) + span, |s|)
  {
    var added, live := LastOf(span, |s|), Window(s, read, write);
    var head := write + |added|;
    var from := Pushed(read, head, |s|);
    KeptWindow(s, t, read, write, added, from);
    KeptThenAdded(t, from, write, head, live, span);
  }

  lemma KeptThenAdded<T>(t: seq<T>, from: nat, write: nat, head: nat, live: seq<T>, span: seq<T>)
    requires |t| > 0 && |live| <= |t| && from <= write <= head
    requires Window(t, from, write) == LastOf(live, write - from) && Window(t, write, head) == LastOf(span, |t|)
    requires write - from == Min(|live|, |t| - |LastOf(span, |t|)|)
    ensures Window(t, from, head) == LastOf(live + span, |t|)
  {
    WindowParts(t, from, write, head);
    KeptAndAdded(live, span, |t|, write - from);
  }

  lemma KeptAndAdded<T>(live: seq<T>, span: seq<T>, c: nat, kept: nat)
    requires |live| <= c && kept == Min(|live|, c - |LastOf(span, c)|)
    ensures LastOf(live, kept) + LastOf(span, c) == LastOf(live + span, c)
  {
    LastOfBoth(live, span, c);
  }

  /** Giving `data` back in front of the contents. */
  lemma UnconsumedSpan<T>(s: seq<T>, t: seq<T>, read: nat, write: nat, data: seq<T>)
    requires Wrote(s, t, read, data) && read + |data| <= write <= read + |s|
    ensures Window(t, read, write) == data + Window(s, read, write)[|data|..]
  {
    WroteBefore(s, t, read, data, write);
    WindowParts(t, read, read + |data|, write);
    WindowParts(s, read, read + |data|, write);
    BehindGiven(Window(s, read, read + |data|), Window(s, read + |data|, write));
  }

  /** The length of the section between two slots, up to the end of the storage when they lie around it. */
  function SectionSize(start: nat, end: nat, c: nat): int {
    if end > start then end - start else c - start
  }

  lemma TailSize(read: nat, write: nat, c: nat)
    requires c > 0 && read < write <= read + c
    ensures var start, end := Slot(read, c), Slot(write, c);
            var size := SectionSize(start, end, c);
            && 0 < size <= write - read && start + size <= c
            && (if end > start then size == write - read
                else start + size == c && Slot(read + size, c) == 0 && write - read == size + end)
  {
    SlotAfter(read, write - read, c);
    var start := Slot(read, c);
    if Slot(write, c) <= start {
      SlotAfter(read, c - start, c);
    }
  }

  /** Contents that are contiguous in memory. */
  lemma TailStraight<T>(s: seq<T>, read: nat, write: nat)
    requires |s| > 0 && read < write <= read + |s| && Slot(write, |s|) > Slot(read, |s|)
    ensures Window(s, read, write) == s[Slot(read, |s|)..Slot(write, |s|)]
  {
    TailSize(read, write, |s|);
    SectionIsWindow(s, Slot(read, |s|), read, write);
  }

  /** Contents that go on at the start of the storage. */
  lemma TailAround<T>(s: seq<T>, read: nat, write: nat)
    requires |s| > 0 && read < write <= read + |s| && Slot(write, |s|) <= Slot(read, |s|)
    ensures Window(s, read, write) == s[Slot(read, |s|)..] + s[..Slot(write, |s|)]
  {
    var turn := read + |s| - Slot(read, |s|);
    TailSize(read, write, |s|);
    SectionToEnd(s, read, turn);
    SectionFromStart(s, turn, write);
    WindowParts(s, read, turn, write);
  }

  lemma SectionToEnd<T>(s: seq<T>, from: nat, upto: nat)
    requires |s| > 0 && from <= upto && Slot(from, |s|) + (upto - from) == |s|
    ensures Window(s, from, upto) == s[Slot(from, |s|)..]
  {
    SectionIsWindow(s, Slot(from, |s|), from, upto);
  }

  lemma SectionFromStart<T>(s: seq<T>, from: nat, upto: nat)
    requires |s| > 0 && from <= upto <= from + |s| && Slot(from, |s|) == 0
    ensures Window(s, from, upto) == s[..upto - from]
  {
    SectionIsWindow(s, 0, from, upto);
  }

  lemma BehindGiven<T>(given: seq<T>, live: seq<T>)
    ensures (given + live)[|given|..] == live
  {
  }

  /** The contents after the end of the span has replaced the elements that were given back. */
  lemma GivenReplaced<T>(span: seq<T>, n: nat, given: seq<T>, live: seq<T>, contents: seq<T>)
    requires n <= |span| && |given| == n
    requires contents == span[|span| - n..] + (given + live)[n..]
    ensures contents == LastOf(span, n) + live
  {
  }

  /** The end of a section that lies in place is what was given back. */
  lemma SectionGiven<T>(s: seq<T>, offset: nat, span: seq<T>, n: nat, from: nat)
    requires offset + |span| <= |s| && span == s[offset..offset + |span|] && 0 < n <= |span|
    requires Slot(from, |s|) == offset + |span| - n
    ensures Window(s, from, from + n) == LastOf(span, n)
  {
    var start := offset + |span| - n;
    SectionIsWindow(s, start, from, from + n);
    SectionEnd(s, offset, span, n, start);
  }

  lemma SectionEnd<T>(s: seq<T>, offset: nat, span: seq<T>, n: nat, start: nat)
    requires offset + |span| <= |s| && span == s[offset..offset + |span|] && 0 < n <= |span|
    requires start == offset + |span| - n
    ensures LastOf(span, n) == s[start..start + n]
  {
  }

  lemma ConcatOfTwo<T>(a: seq<T>, b: seq<T>)
    ensures Spans.Concat([a, b]) == a + b
  {
    assert Spans.Concat([b]) == b + [];
  }

  lemma QuotientLess(offset: nat, size: nat)
    requires size > 0
    ensures 0 <= offset / size <= offset
    ensures offset / size == offset <==> offset == 0 || size == 1
  {
    var q := offset / size;
    assert offset == q * size + offset % size;
    if q >= 1 && size >= 2 {
      assert q * size == 2 * q + q * (size - 2);
      MultipleBound(size - 1, q);
    }
  }

  /** Assigning a section of the own storage keeps it, whatever the elements, exactly when it starts the storage or
      elements have size one. */
  lemma SectionKeptIff<T>(s: seq<T>, offset: nat, n: nat, size: nat)
    requires size > 0 && n > 0 && offset + n <= |s| && forall i, j :: 0 <= i < j < |s| ==> s[i] != s[j]
    ensures 0 <= offset / size <= offset
    ensures s[offset / size..offset / size + n] == s[offset..offset + n] <==> offset == 0 || size == 1
  {
    QuotientLess(offset, size);
    var start := offset / size;
    assert s[start..start + n][0] == s[start] && s[offset..offset + n][0] == s[offset];
  }

  // ---- The ring buffer

  /** The `n` slots from `start` on are none of those of the `n` counter positions from `read` on. */
  ghost predicate Untouched(start: nat, read: int, n: nat, c: nat)
    requires c > 0 && read >= 0
  {
    forall p :: read <= p < read + n ==> !(start <= Slot(p, c) < start + n)
  }

  /** Where the span given to unconsume lies in memory. */
  datatype Address = Elsewhere | InStorage(offset: nat)

  class RingBuffer<T> {
    const storage: array<T>
    var write: nat
    var read: nat
    var overrun: bool

    ghost predicate Valid()
      reads this
    {
      storage.Length > 0 && read <= write <= read + storage.Length
    }

    /** The elements to be read, in order. */
    ghost function Contents(): seq<T>
      requires Valid()
      reads this, storage
    {
      Window(storage[..], read, write)
    }

    constructor (storage: array<T>)
      requires storage.Length > 0
      ensures Valid() && Contents() == [] && !overrun && this.storage == storage
    {
      this.storage := storage;
      write, read, overrun := 0, 0, false;
    }

    function Size(): nat
      requires Valid()
      reads this
    {
      write - read
    }

    predicate Full()
      requires Valid()
      reads this
    {
      Size() >= storage.Length
    }

    method At(index: nat) returns (x: T)
      requires Valid() && index < Size()
      ensures x == Contents()[index]
    {
      WindowAt(storage[..], read, write, read + index);
      SlotIsRemainder(read + index, storage.Length);
      return storage[(read + index) % storage.Length];
    }

    /** The first part of the contents that is contiguous in memory. */
    method AsSpanForReading() returns (span: seq<T>, start: nat)
      requires Valid()
      ensures span <= Contents() && (span == [] <==> Contents() == [])
      ensures span != [] ==> start == Slot(read, storage.Length) && start + |span| <= storage.Length
                             && span == storage[start..start + |span|]
      ensures Size() > 0 ==> |span| == SectionSize(start, Slot(write, storage.Length), storage.Length)
    {
      if Size() == 0 {
        return [], 0;
      }
      SlotIsRemainder(read, storage.Length);
      SlotIsRemainder(write, storage.Length);
      start := read % storage.Length;
      var end := write % storage.Length;
      var size := if end > start then end - start else storage.Length - start;
      TailSize(read, write, storage.Length);
      if end > start {
        TailStraight(storage[..], read, write);
      } else {
        TailAround(storage[..], read, write);
      }
      return storage[start..start + size], start;
    }

    /** The two spans together are the contents. */
    method AsSpans() returns (spans: seq<seq<T>>)
      requires Valid()
      ensures |spans| == 2 && Spans.Concat(spans) == Contents()
    {
      var first, start := AsSpanForReading();
      SlotIsRemainder(read, storage.Length);
      SlotIsRemainder(write, storage.Length);
      var end := write % storage.Length;
      var second: seq<T> := [];
      if Size() != 0 && end <= read % storage.Length {
        second := storage[..end];
      }
      if second != [] {
        TailAround(storage[..], read, write);
      } else if Size() != 0 {
        TailSize(read, write, storage.Length);
      }
      ConcatOfTwo(first, second);
      return [first, second];
    }

    /** The contiguous free section: the slots of the next counter positions, none of them live, up to live data or the
        end of the storage. */
    method AsSpanForWriting() returns (start: nat, size: nat)
      requires Valid()
      ensures size <= storage.Length - (write - read) && (size == 0 <==> write - read == storage.Length)
      ensures start + size <= storage.Length && (size > 0 ==> start == Slot(write, storage.Length))
      ensures size > 0 ==> size == storage.Length - (write - read) || start + size == storage.Length
    {
      if Full() {
        return 0, 0;
      }
      SlotIsRemainder(read, storage.Length);
      SlotIsRemainder(write, storage.Length);
      start := write % storage.Length;
      var end := read % storage.Length;
      size := if end > start then end - start else storage.Length - start;
      SlotAfter(read, Size(), storage.Length);
    }

    /** Copies `data` to the storage from `start` on. */
    method CopyTo(data: seq<T>, start: nat)
      requires start + |data| <= storage.Length
      modifies storage
      ensures forall k :: 0 <= k < storage.Length ==>
                storage[k] == if start <= k < start + |data| then data[k - start] else old(storage[k])
    {
      for i := 0 to |data|
        invariant forall k :: 0 <= k < storage.Length ==>
                    storage[k] == if start <= k < start + i then data[k - start] else old(storage[k])
      {
        storage[start + i] := data[i];
      }
    }

    /** Writes the span, or as much of its end as the storage holds, from counter position `index` on. */
    method Copy(index: nat, span: seq<T>) returns (isOverrun: bool, n: nat)
      requires storage.Length > 0
      modifies storage
      ensures isOverrun == (|span| > storage.Length) && n == Min(|span|, storage.Length)
      ensures Wrote(old(storage[..]), storage[..], index, LastOf(span, storage.Length))
    {
      isOverrun := |span| > storage.Length;
      var actual := if isOverrun then span[|span| - storage.Length..] else span;
      SlotIsRemainder(index, storage.Length);
      var actualIndex := index % storage.Length;
      var sizeBeforeSplit := storage.Length - actualIndex;
      CopyTo(actual[..Min(|span|, sizeBeforeSplit)], actualIndex);
      if sizeBeforeSplit < |span| {
        CopyTo(actual[sizeBeforeSplit..], 0);
      }
      SplitWrite(old(storage[..]), storage[..], index, actual);
      return isOverrun, |actual|;
    }

    method Consume(n: nat)
      requires Valid() && n <= Size()
      modifies this`read
      ensures Valid() && Contents() == old(Contents())[n..] && read == old(read) + n
    {
      WindowParts(storage[..], read, read + n, write);
      read := read + n;
    }

    /** Gives back up to `n` consumed elements: what their slots hold now comes before the contents. */
    method Unconsume(n: nat) returns (k: nat)
      requires Valid() && Min(n, storage.Length - Size()) <= read
      modifies this`read, this`overrun
      ensures Valid() && k == Min(n, storage.Length - old(Size())) && read == old(read) - k
      ensures Contents() == Window(storage[..], read, old(read)) + old(Contents())
      ensures overrun == (old(overrun) || n > storage.Length - old(Size()))
    {
      var maxN := storage.Length - (write - read);
      k := Min(n, maxN);
      WindowParts(storage[..], read - k, read, write);
      if n > maxN {
        read := read - maxN;
        overrun := true;
        return maxN;
      }
      read := read - n;
      return n;
    }

    /** Puts the last elements that fit before the contents. A section of the own storage is not copied where it already
        is in place; elsewhere it must not overlap the slots that are written. */
    method UnconsumeSpan(span: seq<T>, address: Address) returns (n: nat)
      requires Valid() && Min(|span|, storage.Length - Size()) <= read
      requires address.InStorage? ==>
                 && address.offset + |span| <= storage.Length
                 && span == storage[address.offset..address.offset + |span|]
                 && (var k := Min(|span|, storage.Length - Size());
                     var start := address.offset + |span| - k;
                     k > 0 ==>
                       || start == Slot(read - k, storage.Length)
                       || Untouched(start, read - k, k, storage.Length))
      modifies this, storage
      ensures Valid() && n == Min(|span|, storage.Length - old(Size())) && read == old(read) - n
      ensures Contents() == LastOf(span, n) + old(Contents())
      ensures overrun == (old(overrun) || |span| > storage.Length - old(Size()))
    {
      ghost var live := Contents();
      n := Unconsume(|span|);
      if n != 0 {
        ghost var given := Window(storage[..], read, old(read));
        assert Contents() == given + live && |given| == n;
        var actual := span[|span| - n..];
        var _, start := AsSpanForReading();
        if address.Elsewhere? || address.offset + |span| - n != start {
          CopyToTail(actual);
          GivenReplaced(span, n, given, live, Contents());
        } else {
          SectionGiven(storage[..], address.offset, span, n, read);
        }
      }
    }

    /** Overwrites the first elements of the contents. */
    method CopyToTail(data: seq<T>)
      requires Valid() && |data| <= Size()
      modifies storage
      ensures Valid() && Contents() == data + old(Contents())[|data|..]
    {
      ghost var before := storage[..];
      assert LastOf(data, storage.Length) == data;
      var _, _ := Copy(read, data);
      UnconsumedSpan(before, storage[..], read, write, data);
    }

    /** After elements have been put in the slots from the head on: they follow the contents, and of all this the
        ring keeps the last elements it has room for. */
    method Produce(n: nat)
      requires Valid()
      modifies this
      ensures Valid() && write == old(write) + n
      ensures Contents() == LastOf(old(Contents()) + Window(storage[..], old(write), write), storage.Length)
      ensures overrun == (old(overrun) || old(Size()) + n > storage.Length)
    {
      ghost var s, r, w, live := storage[..], read, write, Contents();
      ProducedWindow(s, r, w, w + n);
      assert live == Window(s, r, w);
      write := write + n;
      if write - read > storage.Length {
        read := write - storage.Length;
        overrun := true;
      }
      assert storage[..] == s;
      assert Contents() == Window(s, Pushed(r, w + n, |s|), w + n);
      assert Contents() == LastOf(live + Window(s, w, w + n), |s|);
    }

    /** Producing a span of any length keeps the last elements of the contents followed by the span. */
    method ProduceSpan(span: seq<T>)
      requires Valid()
      modifies this, storage
      ensures Valid()
      ensures Contents() == LastOf(old(Contents()) + span, storage.Length)
      ensures overrun == (old(overrun) || old(Size()) + |span| > storage.Length)
    {
      ghost var before := storage[..];
      var isOverrun, n := Copy(write, span);
      ProducedSpan(before, storage[..], read, write, span);
      write := write + n;
      if isOverrun || write - read > storage.Length {
        read := write - storage.Length;
        overrun := true;
      }
    }

    /** Filling the free section from its start and producing that many appends exactly what was written. */
    method FillAndProduce(data: seq<T>) returns (n: nat)
      requires Valid()
      modifies this, storage
      ensures Valid() && n <= |data| && (n == 0 <==> data == [] || old(write - read) == storage.Length)
      ensures write == old(write) + n
      ensures n == |data| || write - read == storage.Length || Slot(write, storage.Length) == 0
      ensures Contents() == old(Contents()) + data[..n]
      ensures overrun == old(overrun) && read == old(read)
    {
      ghost var before := storage[..];
      var start, size := AsSpanForWriting();
      n := Min(size, |data|);
      SlotAfter(write, n, storage.Length);
      CopyTo(data[..n], start);
      if n > 0 {
        SplitWrite(before, storage[..], write, data[..n]);
        WroteAfter(before, storage[..], write, data[..n], read);
      } else {
        assert storage[..] == before;
      }
      Produce(n);
    }

    method PushBack(value: T)
      requires Valid()
      modifies this, storage
      ensures Valid()
      ensures Contents() == LastOf(old(Contents()) + [value], storage.Length)
      ensures overrun == (old(overrun) || old(Full()))
    {
      ghost var before := storage[..];
      SlotIsRemainder(write, storage.Length);
      storage[write % storage.Length] := value;
      SplitWrite(before, storage[..], write, [value]);
      ProducedSpan(before, storage[..], read, write, [value]);
      Produce(1);
    }

    method PopFront() returns (x: T)
      requires Valid() && Size() > 0
      modifies this`read
      ensures Valid() && x == old(Contents())[0] && Contents() == old(Contents())[1..]
    {
      x := At(0);
      Consume(1);
    }

    method Clear()
      requires Valid()
      modifies this
      ensures Valid() && Contents() == [] && !overrun
    {
      write, read, overrun := 0, 0, false;
    }

    /** Data from elsewhere is copied; only a span the storage can hold leaves a valid ring. A section of the own
        storage is not, but the code divides its offset, a number of elements, by the size of an element. */
    method Assign(span: seq<T>, address: Address, sizeOf: nat)
      requires Valid() && sizeOf > 0
      requires address.InStorage? ==>
                 && address.offset < storage.Length && address.offset + |span| <= storage.Length
                 && span == storage[address.offset..address.offset + |span|]
      modifies this, storage
      ensures address.Elsewhere? ==> (Valid() <==> |span| <= storage.Length) && overrun == (|span| > storage.Length)
      ensures address.Elsewhere? && Valid() ==> Contents() == span
      ensures address.InStorage? ==> Valid() && storage[..] == old(storage[..]) && overrun == old(overrun)
      ensures address.InStorage? ==>
                var start := address.offset / sizeOf;
                0 <= start <= address.offset && Contents() == storage[start..start + |span|]
    {
      if address.InStorage? {
        QuotientLess(address.offset, sizeOf);
        read := address.offset / sizeOf;
        write := read + |span|;
        SectionIsWindow(storage[..], read, read, write);
      } else {
        read := 0;
        write := |span|;
        var isOverrun, _ := Copy(0, span);
        overrun := isOverrun;
      }
    }

    /** Consumed elements that are given back are the ones that were consumed. */
    method ConsumeThenUnconsume(n: nat)
      requires Valid() && n <= Size()
      modifies this`read, this`overrun
      ensures Valid() && Contents() == old(Contents()) && overrun == old(overrun)
    {
      WindowParts(storage[..], read, read + n, write);
      Consume(n);
      var _ := Unconsume(n);
    }
  }
}
