/** In-place heap sort: sift-up heap construction, then a sift-down that always runs to a leaf. */
module HeapSort {
  import opened Orders

  /** `(j - 1) / 2` in C++: division truncates, so the root is its own parent. */
  function Parent(j: nat): nat {
    if j == 0 then 0 else (j - 1) / 2
  }

  /** In the first `n` elements no child is greater than its parent, save where the parent is `j`. */
  ghost predicate HeapExceptBelow<T>(less: (T, T) -> bool, s: seq<T>, n: nat, j: nat)
    requires n <= |s|
  {
    forall k :: 1 <= k < n && Parent(k) != j ==> !less(s[Parent(k)], s[k])
  }

  /** ... save at the child `j`. */
  ghost predicate HeapExceptAt<T>(less: (T, T) -> bool, s: seq<T>, n: nat, j: nat)
    requires n <= |s|
  {
    forall k :: 1 <= k < n && k != j ==> !less(s[Parent(k)], s[k])
  }

  /** The children of `j` are not greater than the parent of `j`. */
  ghost predicate GrandchildrenOk<T>(less: (T, T) -> bool, s: seq<T>, n: nat, j: nat)
    requires n <= |s|
  {
    forall k :: 1 <= k < n && Parent(k) == j && j > 0 ==> !less(s[Parent(j)], s[k])
  }

  ghost predicate Heap<T>(less: (T, T) -> bool, s: seq<T>, n: nat)
    requires n <= |s|
  {
    forall k :: 1 <= k < n ==> !less(s[Parent(k)], s[k])
  }

  lemma {:induction false} RootIsGreatest<T(!new)>(less: (T, T) -> bool, s: seq<T>, n: nat, k: nat)
    requires StrictWeakOrder(less) && k < n <= |s| && Heap(less, s, n)
    ensures !less(s[0], s[k])
    decreases k
  {
    if k > 0 {
      RootIsGreatest(less, s, n, Parent(k));
      NotLessTransitive(less, s[k], s[Parent(k)], s[0]);
    }
  }

  function Swapped<T>(s: seq<T>, i: nat, j: nat): seq<T>
    requires i < |s| && j < |s|
  {
    s[i := s[j]][j := s[i]]
  }

  lemma SwappedPermutes<T>(s: seq<T>, i: nat, j: nat)
    requires i < |s| && j < |s|
    ensures multiset(Swapped(s, i, j)) == multiset(s)
  {
  }

  method Swap<T>(a: array<T>, i: nat, j: nat)
    requires i < a.Length && j < a.Length
    modifies a
    ensures a[..] == Swapped(old(a[..]), i, j)
    ensures multiset(a[..]) == multiset(old(a[..]))
  {
    SwappedPermutes(a[..], i, j);
    var t := a[i];
    a[i] := a[j];
    a[j] := t;
  }

  /** One swap of the sift-up moves the only violation from `j` to its parent. */
  lemma SiftUpStep<T(!new)>(less: (T, T) -> bool, s: seq<T>, n: nat, j: nat)
    requires StrictWeakOrder(less) && 0 < j < n <= |s|
    requires HeapExceptAt(less, s, n, j) && GrandchildrenOk(less, s, n, j)
    requires less(s[Parent(j)], s[j])
    ensures HeapExceptAt(less, Swapped(s, j, Parent(j)), n, Parent(j))
    ensures GrandchildrenOk(less, Swapped(s, j, Parent(j)), n, Parent(j))
  {
    var p, t := Parent(j), Swapped(s, j, Parent(j));
    forall k | 1 <= k < n && Parent(k) == p && p > 0
      ensures !less(t[Parent(p)], t[k])
    {
      if k != j {
        NotLessTransitive(less, s[k], s[p], s[Parent(p)]);
      }
    }
  }

  method MakeHeap<T(!new)>(a: array<T>, less: (T, T) -> bool)
    requires StrictWeakOrder(less)
    modifies a
    ensures Heap(less, a[..], a.Length)
    ensures multiset(a[..]) == multiset(old(a[..]))
  {
    var i := 1;
    while i < a.Length
      invariant 1 <= i && (a.Length > 0 ==> i <= a.Length)
      invariant i <= a.Length ==> Heap(less, a[..], i)
      invariant multiset(a[..]) == multiset(old(a[..]))
    {
      if less(a[Parent(i)], a[i]) {
        var j: nat := i;
        while less(a[Parent(j)], a[j])
          invariant j <= i
          invariant HeapExceptAt(less, a[..], i + 1, j) && GrandchildrenOk(less, a[..], i + 1, j)
          invariant multiset(a[..]) == multiset(old(a[..]))
          decreases j
        {
          SiftUpStep(less, a[..], i + 1, j);
          Swap(a, j, Parent(j));
          j := Parent(j);
        }
      }
      i := i + 1;
    }
  }

  /** The greater child of `j` among the first `n` elements, as the sift-down chooses it. */
  predicate GreaterChild<T>(less: (T, T) -> bool, s: seq<T>, n: nat, j: nat, c: nat)
    requires n <= |s|
  {
    && (c == 2 * j + 1 || (c == 2 * j + 2 && c < n))
    && (c < n ==> forall k :: 1 <= k < n && Parent(k) == j ==> !less(s[c], s[k]))
  }

  lemma SiftDownSwap<T(!new)>(less: (T, T) -> bool, s: seq<T>, n: nat, j: nat, c: nat)
    requires StrictWeakOrder(less) && j < n <= |s| && c < n
    requires HeapExceptBelow(less, s, n, j) && GrandchildrenOk(less, s, n, j)
    requires GreaterChild(less, s, n, j, c) && less(s[j], s[c])
    ensures HeapExceptBelow(less, Swapped(s, j, c), n, c)
    ensures GrandchildrenOk(less, Swapped(s, j, c), n, c)
  {
    assert Parent(c) == j;
    var t := Swapped(s, j, c);
    forall k | 1 <= k < n && Parent(k) != c
      ensures !less(t[Parent(k)], t[k])
    {
      if k == j {
        assert !less(s[Parent(j)], s[c]);
      }
    }
  }

  lemma SiftDownKeep<T(!new)>(less: (T, T) -> bool, s: seq<T>, n: nat, j: nat, c: nat)
    requires StrictWeakOrder(less) && j < n <= |s| && c < n
    requires HeapExceptBelow(less, s, n, j) && GreaterChild(less, s, n, j, c) && !less(s[j], s[c])
    ensures HeapExceptBelow(less, s, n, c) && GrandchildrenOk(less, s, n, c)
  {
    assert Parent(c) == j;
    forall k | 1 <= k < n && Parent(k) == j
      ensures !less(s[j], s[k])
    {
      NotLessTransitive(less, s[k], s[c], s[j]);
    }
    forall k | 1 <= k < n && Parent(k) == c
      ensures !less(s[j], s[k])
    {
      NotLessTransitive(less, s[k], s[c], s[j]);
    }
  }

  /** Elements before `n` are not greater than those from `n` on. */
  ghost predicate SplitAt<T(!new)>(less: (T, T) -> bool, s: seq<T>, n: nat)
    requires n <= |s|
  {
    forall p, q :: 0 <= p < n <= q < |s| ==> !less(s[q], s[p])
  }

  /** The sift-down at position `j` of the first `n` elements. */
  ghost predicate Sifting<T(!new)>(less: (T, T) -> bool, s: seq<T>, n: nat, j: nat)
    requires n <= |s|
  {
    HeapExceptBelow(less, s, n, j) && GrandchildrenOk(less, s, n, j) && SplitAt(less, s, n)
  }

  function Chosen<T>(less: (T, T) -> bool, s: seq<T>, n: nat, j: nat): nat
    requires j < n <= |s|
  {
    if 2 * j + 1 < n - 1 && less(s[2 * j + 1], s[2 * j + 2]) then 2 * j + 2 else 2 * j + 1
  }

  lemma ChosenIsGreater<T(!new)>(less: (T, T) -> bool, s: seq<T>, n: nat, j: nat)
    requires StrictWeakOrder(less) && j < n <= |s|
    ensures GreaterChild(less, s, n, j, Chosen(less, s, n, j))
  {
    forall k | 1 <= k < n && Parent(k) == j && Chosen(less, s, n, j) < n
      ensures !less(s[Chosen(less, s, n, j)], s[k])
    {
      assert k == 2 * j + 1 || k == 2 * j + 2;
    }
  }

  /** One round of the sift-down: `t` is `s` after its possible swap. */
  lemma SiftDownRound<T(!new)>(less: (T, T) -> bool, s: seq<T>, n: nat, j: nat, t: seq<T>)
    requires StrictWeakOrder(less) && j < n <= |s| && Sifting(less, s, n, j)
    requires var c := Chosen(less, s, n, j);
             t == if c < n && less(s[j], s[c]) then Swapped(s, j, c) else s
    ensures |t| == |s| && Sifting(less, t, n, Chosen(less, s, n, j)) && t[n..] == s[n..]
  {
    var c := Chosen(less, s, n, j);
    ChosenIsGreater(less, s, n, j);
    if c < n {
      if less(s[j], s[c]) {
        SiftDownSwap(less, s, n, j, c);
      } else {
        SiftDownKeep(less, s, n, j, c);
      }
    }
  }

  /** Past the leaves the heap is whole. */
  lemma SiftedIsHeap<T(!new)>(less: (T, T) -> bool, s: seq<T>, n: nat, j: nat)
    requires n <= |s| && j >= n && Sifting(less, s, n, j)
    ensures Heap(less, s, n) && SplitAt(less, s, n)
  {
    assert forall k :: 1 <= k < n ==> Parent(k) < n;
  }

  /** `t` has the elements of `s`, those from `n` on in their places. */
  ghost predicate OnlyMovedBefore<T>(s: seq<T>, t: seq<T>, n: nat)
    requires n <= |s| == |t|
  {
    t[n..] == s[n..] && multiset(t) == multiset(s)
  }

  /** The sift-down restores the heap on the first `i` elements after the root has been replaced. */
  method SiftDown<T(!new)>(a: array<T>, i: nat, less: (T, T) -> bool)
    requires StrictWeakOrder(less) && 0 < i < a.Length
    requires HeapExceptBelow(less, a[..], i, 0) && SplitAt(less, a[..], i)
    modifies a
    ensures Heap(less, a[..], i) && SplitAt(less, a[..], i)
    ensures OnlyMovedBefore(old(a[..]), a[..], i)
  {
    var j: nat, index: nat := 0, 0;
    var again := true;
    while again
      invariant again == (j < i)
      invariant Sifting(less, a[..], i, j)
      invariant OnlyMovedBefore(old(a[..]), a[..], i)
      decreases i - j
    {
      ghost var s := a[..];
      index := 2 * j + 1;
      if index < i - 1 && less(a[index], a[index + 1]) {
        index := index + 1;
      }
      assert index == Chosen(less, s, i, j);
      if index < i && less(a[j], a[index]) {
        Swap(a, j, index);
      }
      SiftDownRound(less, s, i, j, a[..]);
      j := index;
      again := index < i;
    }
    SiftedIsHeap(less, a[..], i, j);
  }

  /** Moving the root of the heap behind it. */
  lemma MoveRoot<T(!new)>(less: (T, T) -> bool, s: seq<T>, i: nat)
    requires StrictWeakOrder(less) && 0 < i < |s|
    requires Heap(less, s, i + 1) && SplitAt(less, s, i + 1) && SortedBy(less, s[i + 1..])
    ensures var t := Swapped(s, 0, i);
            HeapExceptBelow(less, t, i, 0) && SplitAt(less, t, i) && SortedBy(less, t[i..])
  {
    var t := Swapped(s, 0, i);
    forall k | 0 <= k <= i
      ensures !less(s[0], s[k])
    {
      RootIsGreatest(less, s, i + 1, k);
    }
    assert t[i..] == [s[0]] + s[i + 1..];
    assert forall q :: i < q < |s| ==> t[q] == s[q] && !less(s[q], s[0]);
    forall p, q | 0 <= p < q < |t[i..]|
      ensures !less(t[i..][q], t[i..][p])
    {
      assert t[i..][q] == s[i + q];
      if p > 0 {
        assert s[i + 1..][p - 1] == t[i..][p] && s[i + 1..][q - 1] == t[i..][q];
      }
    }
  }

  /** A split in order on its right side and a single element on its left is sorted. */
  lemma SplitAtOneIsSorted<T(!new)>(less: (T, T) -> bool, s: seq<T>)
    requires |s| > 0 && SplitAt(less, s, 1) && SortedBy(less, s[1..])
    ensures SortedBy(less, s)
  {
    forall p, q | 0 <= p < q < |s|
      ensures !less(s[q], s[p])
    {
      if p > 0 {
        assert s[1..][p - 1] == s[p] && s[1..][q - 1] == s[q];
      }
    }
  }

  /** Sorts in place: the result is in order and holds the elements the array held. */
  method Sort<T(!new)>(a: array<T>, less: (T, T) -> bool)
    requires StrictWeakOrder(less)
    modifies a
    ensures SortedBy(less, a[..])
    ensures multiset(a[..]) == multiset(old(a[..]))
  {
    MakeHeap(a, less);
    var i := a.Length - 1;
    while i > 0
      invariant -1 <= i < a.Length && (i == -1 ==> a.Length == 0)
      invariant Heap(less, a[..], i + 1)
      invariant SplitAt(less, a[..], i + 1)
      invariant SortedBy(less, a[..][i + 1..])
      invariant multiset(a[..]) == multiset(old(a[..]))
    {
      MoveRoot(less, a[..], i);
      Swap(a, 0, i);
      SiftDown(a, i, less);
      i := i - 1;
    }
    if a.Length > 0 {
      SplitAtOneIsSorted(less, a[..]);
    }
  }
}
