/** Views over several contiguous memory sections, each a sequence of elements. */
module Spans {
  /** The greatest 64-bit size, standing for no limit. */
  const NPOS: nat := 0xFFFF_FFFF_FFFF_FFFF

  function Concat<T>(spans: seq<seq<T>>): seq<T> {
    if spans == [] then [] else spans[0] + Concat(spans[1..])
  }

  /** At most `count` elements from `offset` on, clipped to the sequence. */
  function Slice<T>(s: seq<T>, offset: nat, count: nat): seq<T> {
    if offset >= |s| then []
    else if offset + count >= |s| then s[offset..]
    else s[offset..offset + count]
  }

  lemma {:induction false} ConcatParts<T>(a: seq<seq<T>>, b: seq<seq<T>>)
    ensures Concat(a + b) == Concat(a) + Concat(b)
  {
    if a == [] {
      assert a + b == b;
    } else {
      assert (a + b)[1..] == a[1..] + b;
      ConcatParts(a[1..], b);
    }
  }

  lemma {:induction false} ConcatEmpty<T>(spans: seq<seq<T>>)
    requires forall i :: 0 <= i < |spans| ==> spans[i] == []
    ensures Concat(spans) == []
  {
    if spans != [] {
      ConcatEmpty(spans[1..]);
    }
  }

  /** A slice of two parts: either it starts behind the first, or it is a slice of each. */
  lemma SliceOfParts<T>(a: seq<T>, b: seq<T>, offset: nat, count: nat)
    ensures offset > |a| ==> Slice(a + b, offset, count) == Slice(b, offset - |a|, count)
    ensures offset <= |a| ==>
              var n := if count < |a| - offset then count else |a| - offset;
              Slice(a + b, offset, count) == a[offset..offset + n] + Slice(b, 0, count - n)
  {
    if offset > |a| {
      assert Slice(a + b, offset, count) == Slice(b, offset - |a|, count);
    } else {
      var n := if count < |a| - offset then count else |a| - offset;
      assert Slice(a + b, offset, count) == a[offset..offset + n] + Slice(b, 0, count - n);
    }
  }

  method Size<T>(spans: seq<seq<T>>) returns (size: nat)
    ensures size == |Concat(spans)|
  {
    size := 0;
    for i := 0 to |spans|
      invariant size == |Concat(spans[..i])|
    {
      assert spans[..i + 1] == spans[..i] + [spans[i]];
      ConcatParts(spans[..i], [spans[i]]);
      size := size + |spans[i]|;
    }
    assert spans[..|spans|] == spans;
  }

  /** One round over a span: its contribution, and the offset and count for the spans after it. An unlimited
      count stays unlimited. */
  function Round<T>(span: seq<T>, offset: nat, count: nat): (r: (seq<T>, nat, nat))
    ensures r.2 <= count
  {
    if offset > |span| then ([], offset - |span|, count)
    else
      var n := if count < |span| - offset then count else |span| - offset;
      (span[offset..offset + n], 0, count - (if count == NPOS then 0 else n))
  }

  lemma RoundSlices<T>(done: seq<T>, span: seq<T>, rest: seq<T>, offset: nat, count: nat)
    requires |span| + |rest| < NPOS && count <= NPOS
    ensures var r := Round(span, offset, count);
            done + Slice(span + rest, offset, count) == (done + r.0) + Slice(rest, r.1, r.2)
  {
    SliceOfParts(span, rest, offset, count);
  }

  lemma PutPiece<T>(sub: seq<seq<T>>, index: nat, piece: seq<T>)
    requires index < |sub|
    ensures Concat(sub[index := piece][..index + 1]) == Concat(sub[..index]) + piece
  {
    assert sub[index := piece][..index + 1] == sub[..index] + [piece];
    ConcatParts(sub[..index], [piece]);
  }

  /** Where the loop of the sub view stands before span `index`. */
  ghost predicate Progress<T>(spans: seq<seq<T>>, offset: nat, count: nat,
                              sub: seq<seq<T>>, index: nat, currentOffset: nat, currentCount: nat)
  {
    && index <= |spans| == |sub| && currentCount <= NPOS && |Concat(spans[index..])| < NPOS
    && (forall i :: index <= i < |sub| ==> sub[i] == [])
    && Concat(sub[..index]) + Slice(Concat(spans[index..]), currentOffset, currentCount)
       == Slice(Concat(spans), offset, count)
  }

  lemma RoundProgresses<T>(spans: seq<seq<T>>, offset: nat, count: nat,
                           sub: seq<seq<T>>, index: nat, currentOffset: nat, currentCount: nat)
    requires Progress(spans, offset, count, sub, index, currentOffset, currentCount) && index < |spans|
    ensures var r := Round(spans[index], currentOffset, currentCount);
            Progress(spans, offset, count, sub[index := r.0], index + 1, r.1, r.2)
  {
    var r := Round(spans[index], currentOffset, currentCount);
    assert spans[index..][1..] == spans[index + 1..];
    RoundSlices(Concat(sub[..index]), spans[index], Concat(spans[index + 1..]), currentOffset, currentCount);
    PutPiece(sub, index, r.0);
  }

  lemma ProgressEnds<T>(spans: seq<seq<T>>, offset: nat, count: nat,
                        sub: seq<seq<T>>, index: nat, currentOffset: nat, currentCount: nat)
    requires Progress(spans, offset, count, sub, index, currentOffset, currentCount)
    requires index == |spans| || currentCount == 0
    ensures Concat(sub) == Slice(Concat(spans), offset, count)
  {
    assert sub == sub[..index] + sub[index..];
    ConcatParts(sub[..index], sub[index..]);
    ConcatEmpty(sub[index..]);
  }

  /** The sub view from `offset` of at most `count` elements. */
  method SubSpans<T>(spans: seq<seq<T>>, offset: nat, count: nat) returns (sub: seq<seq<T>>)
    requires |Concat(spans)| < NPOS && count <= NPOS
    ensures |sub| == |spans|
    ensures var all := Concat(spans);
            Concat(sub) == if offset >= |all| then []
                           else if offset + count >= |all| then all[offset..]
                           else all[offset..offset + count]
  {
    sub := seq(|spans|, _ => []);
    var index: nat, currentCount: nat, currentOffset: nat := 0, count, offset;
    assert spans[0..] == spans;
    while index < |spans| && currentCount != 0
      invariant Progress(spans, offset, count, sub, index, currentOffset, currentCount)
      decreases |spans| - index
    {
      var span := spans[index];
      RoundProgresses(spans, offset, count, sub, index, currentOffset, currentCount);
      assert sub[index := []] == sub;
      ghost var round, before := Round(span, currentOffset, currentCount), sub;
      if currentOffset > |span| {
        currentOffset := currentOffset - |span|;
        assert sub == before[index := round.0];
      } else if currentOffset != 0 {
        var spanCount := if currentCount < |span| - currentOffset then currentCount else |span| - currentOffset;
        sub := sub[index := span[currentOffset..currentOffset + spanCount]];
        currentOffset := 0;
        currentCount := currentCount - (if currentCount == NPOS then 0 else spanCount);
      } else {
        var spanCount := if currentCount < |span| then currentCount else |span|;
        sub := sub[index := span[0..spanCount]];
        currentCount := currentCount - (if currentCount == NPOS then 0 else spanCount);
      }
      assert sub == before[index := round.0] && currentOffset == round.1 && currentCount == round.2;
      index := index + 1;
    }
    ProgressEnds(spans, offset, count, sub, index, currentOffset, currentCount);
  }

  method First<T>(spans: seq<seq<T>>, count: nat) returns (sub: seq<seq<T>>)
    requires |Concat(spans)| < NPOS && count <= NPOS
    ensures var all := Concat(spans);
            Concat(sub) == if count >= |all| then all else all[..count]
  {
    sub := SubSpans(spans, 0, count);
    ghost var all := Concat(spans);
    assert all[0..] == all;
  }

  /** The last `count` elements -- or none when there are fewer: the 64-bit offset then wraps around. */
  method Last<T>(spans: seq<seq<T>>, count: nat) returns (sub: seq<seq<T>>)
    requires |Concat(spans)| < NPOS && count <= NPOS
    ensures var all := Concat(spans);
            Concat(sub) == if count <= |all| then all[|all| - count..] else []
  {
    var size := Size(spans);
    var offset := (size - count) % (NPOS + 1);
    sub := SubSpans(spans, offset, count);
  }
}
