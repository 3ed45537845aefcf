/** Binary search for the two ends of the elements equivalent to a value. */
module Bounds {
  /** Positions `first..last` hold elements less than the value, then others. */
  ghost predicate LessFirst<E, V>(s: seq<E>, first: nat, last: nat, value: V, less: (E, V) -> bool)
    requires last <= |s|
  {
    forall i, j :: first <= i <= j < last && less(s[j], value) ==> less(s[i], value)
  }

  /** Positions `first..last` hold elements the value is not less than, then others. */
  ghost predicate GreaterLast<E, V>(s: seq<E>, first: nat, last: nat, value: V, less: (V, E) -> bool)
    requires last <= |s|
  {
    forall i, j :: first <= i <= j < last && less(value, s[i]) ==> less(value, s[j])
  }

  /** The first position that is not less than the value. The result stays in the range for any comparison. */
  method LowerBound<E, V>(s: seq<E>, first: nat, last: nat, value: V, less: (E, V) -> bool) returns (r: nat)
    requires first <= last <= |s|
    ensures first <= r <= last
    ensures LessFirst(s, first, last, value, less) ==> forall i :: first <= i < last ==> (less(s[i], value) <==> i < r)
  {
    var lo: nat := first;
    var count := last - first;
    while count > 0
      invariant first <= lo && 0 <= count && lo + count <= last
      invariant LessFirst(s, first, last, value, less) ==>
                  && (forall i :: first <= i < lo ==> less(s[i], value))
                  && (forall i :: lo + count <= i < last ==> !less(s[i], value))
    {
      var step := count / 2;
      var it := lo + step;
      if less(s[it], value) {
        lo := it + 1;
        count := count - (step + 1);
      } else {
        count := step;
      }
    }
    return lo;
  }

  /** The first position the value is less than. */
  method UpperBound<E, V>(s: seq<E>, first: nat, last: nat, value: V, less: (V, E) -> bool) returns (r: nat)
    requires first <= last <= |s|
    ensures first <= r <= last
    ensures GreaterLast(s, first, last, value, less) ==>
              forall i :: first <= i < last ==> (less(value, s[i]) <==> i >= r)
  {
    var lo: nat := first;
    var count := last - first;
    while count > 0
      invariant first <= lo && 0 <= count && lo + count <= last
      invariant GreaterLast(s, first, last, value, less) ==>
                  && (forall i :: first <= i < lo ==> !less(value, s[i]))
                  && (forall i :: lo + count <= i < last ==> less(value, s[i]))
    {
      var step := count / 2;
      var it := lo + step;
      if !less(value, s[it]) {
        lo := it + 1;
        count := count - (step + 1);
      } else {
        count := step;
      }
    }
    return lo;
  }
}
