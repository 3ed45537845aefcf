/** The search for an item the input starts with, by narrowing a sorted range one input element at a time. */
module PrefixSearch {
  import opened Bounds

  /** Lexicographic order, a proper prefix first. */
  predicate LexLe(a: seq<int>, b: seq<int>) {
    a == [] || (b != [] && (a[0] < b[0] || (a[0] == b[0] && LexLe(a[1..], b[1..]))))
  }

  ghost predicate LexSorted(items: seq<seq<int>>) {
    forall i, j :: 0 <= i < j < |items| ==> LexLe(items[i], items[j])
  }

  /** After a common beginning the order is that of the next elements, and a longer item is not first. */
  lemma {:induction false} OrderAfterCommon(a: seq<int>, b: seq<int>, p: seq<int>)
    requires LexLe(a, b) && p <= a && p <= b && |a| > |p|
    ensures |b| > |p| && a[|p|] <= b[|p|]
  {
    if p != [] {
      OrderAfterCommon(a[1..], b[1..], p[1..]);
    }
  }

  /** The item that is to be found: the input starts with it, and it starts no other item. */
  ghost predicate Found(items: seq<seq<int>>, input: seq<int>, r: nat) {
    && r < |items| && items[r] != [] && items[r] <= input
    && forall q :: 0 <= q < |items| && q != r ==> !(items[r] <= items[q])
  }

  /** Of two beginnings of the input one begins the other. */
  lemma BeginningsNest(a: seq<int>, b: seq<int>, input: seq<int>)
    requires a <= input && b <= input && |a| <= |b|
    ensures a <= b
  {
    assert a == input[..|a|] == input[..|b|][..|a|] == b[..|a|];
  }

  /** There is at most one such item. */
  lemma FoundUnique(items: seq<seq<int>>, input: seq<int>, r: nat, q: nat)
    requires Found(items, input, r) && Found(items, input, q)
    ensures r == q
  {
    if |items[r]| <= |items[q]| {
      BeginningsNest(items[r], items[q], input);
    } else {
      BeginningsNest(items[q], items[r], input);
    }
  }

  function LowerTest(index: nat): (seq<int>, int) -> bool {
    (item: seq<int>, v: int) => index >= |item| || item[index] < v
  }

  function UpperTest(index: nat): (int, seq<int>) -> bool {
    (v: int, item: seq<int>) => index >= |item| || item[index] > v
  }

  /** The items of the range are those that start with the elements consumed so far. */
  ghost predicate Narrowed(items: seq<seq<int>>, p: seq<int>, first: nat, last: nat) {
    first <= last <= |items| && forall i :: 0 <= i < |items| ==> (first <= i < last <==> p <= items[i])
  }

  lemma LowerTestPartitions(items: seq<seq<int>>, p: seq<int>, first: nat, last: nat, v: int)
    requires LexSorted(items) && Narrowed(items, p, first, last)
    ensures LessFirst(items, first, last, v, LowerTest(|p|))
  {
    forall i, j | first <= i < j < last && LowerTest(|p|)(items[j], v)
      ensures LowerTest(|p|)(items[i], v)
    {
      if |items[i]| > |p| {
        OrderAfterCommon(items[i], items[j], p);
      }
    }
  }

  lemma UpperTestPartitions(items: seq<seq<int>>, p: seq<int>, first: nat, lower: nat, last: nat, v: int)
    requires LexSorted(items) && Narrowed(items, p, first, last) && first <= lower <= last
    requires forall i :: first <= i < last ==> (LowerTest(|p|)(items[i], v) <==> i < lower)
    ensures GreaterLast(items, lower, last, v, UpperTest(|p|))
  {
    forall i, j | lower <= i < j < last && UpperTest(|p|)(v, items[i])
      ensures UpperTest(|p|)(v, items[j])
    {
      assert !LowerTest(|p|)(items[i], v);
      OrderAfterCommon(items[i], items[j], p);
    }
  }

  /** One round: the two bounds leave the items that go on with `v`. */
  lemma RoundNarrows(items: seq<seq<int>>, p: seq<int>, first: nat, last: nat, v: int, lower: nat, upper: nat)
    requires Narrowed(items, p, first, last) && first <= lower <= upper <= last
    requires forall i :: first <= i < last ==> (LowerTest(|p|)(items[i], v) <==> i < lower)
    requires forall i :: lower <= i < last ==> (UpperTest(|p|)(v, items[i]) <==> i >= upper)
    ensures Narrowed(items, p + [v], lower, upper)
  {
    forall i | 0 <= i < |items|
      ensures lower <= i < upper <==> p + [v] <= items[i]
    {
      if p + [v] <= items[i] {
        assert p <= items[i];
        assert (p + [v])[|p|] == v;
      }
    }
  }

  /** When the range has just been narrowed to the item that is to be found, it holds nothing else. */
  lemma NotAlone(items: seq<seq<int>>, input: seq<int>, p: seq<int>, first: nat, last: nat, q: nat)
    requires Narrowed(items, p, first, last) && p <= input
    requires Found(items, input, q) && |items[q]| == |p|
    ensures first == q && last == q + 1
  {
    assert items[q] == input[..|p|] == p;
    assert p <= items[first] && p <= items[last - 1];
  }

  lemma NothingFound(items: seq<seq<int>>, input: seq<int>, p: seq<int>, first: nat, q: nat)
    requires Narrowed(items, p, first, first) && p <= input
    requires q < |items| && |items[q]| >= |p|
    ensures !Found(items, input, q)
  {
    if items[q] <= input {
      BeginningsNest(p, items[q], input);
    }
  }

  /** Returns the one item found, or |items| for the end of the range. */
  method StartsWithAnyOf(input: seq<int>, items: seq<seq<int>>) returns (r: nat)
    requires LexSorted(items)
    ensures r <= |items|
    ensures forall q: nat :: Found(items, input, q) <==> q == r < |items|
  {
    var rangeFirst: nat, rangeLast: nat := 0, |items|;
    var index: nat := 0;
    while index < |input|
      invariant index <= |input| && Narrowed(items, input[..index], rangeFirst, rangeLast)
      invariant forall q: nat :: Found(items, input, q) ==> |items[q]| > index
    {
      var value := input[index];
      ghost var p := input[..index];
      LowerTestPartitions(items, p, rangeFirst, rangeLast, value);
      var lower := LowerBound(items, rangeFirst, rangeLast, value, LowerTest(index));
      UpperTestPartitions(items, p, rangeFirst, lower, rangeLast, value);
      var upper := UpperBound(items, lower, rangeLast, value, UpperTest(index));
      RoundNarrows(items, p, rangeFirst, rangeLast, value, lower, upper);
      rangeFirst, rangeLast := lower, upper;
      index := index + 1;
      p := input[..index];
      assert p == input[..index - 1] + [value];

      if rangeFirst == rangeLast {
        forall q: nat
          ensures !Found(items, input, q)
        {
          if q < |items| && |items[q]| >= index {
            NothingFound(items, input, p, rangeFirst, q);
          }
        }
        return |items|;
      } else if rangeLast - rangeFirst == 1 && |items[rangeFirst]| == index {
        assert items[rangeFirst] == p;
        assert Found(items, input, rangeFirst);
        forall q: nat | Found(items, input, q)
          ensures q == rangeFirst
        {
          FoundUnique(items, input, q, rangeFirst);
        }
        return rangeFirst;
      }
      forall q: nat | Found(items, input, q)
        ensures |items[q]| > index
      {
        if |items[q]| == index {
          NotAlone(items, input, p, rangeFirst, rangeLast, q);
        }
      }
    }
    return |items|;
  }
}
