/** The search for images whose names stand out: a threshold below the best score that is moved until fewer than
half of the images are below it. Each subtraction and product is rounded by a function `round`: to binary64 as in the
code, or not at all.
 */
module Outliers {
  import opened Wrappers
  import Binary64

  type Scores<I> = seq<(I, real)>

  function Greatest<I>(s: Scores<I>): real
    requires s != []
  {
    if |s| == 1 || s[0].1 >= Greatest(s[1..]) then s[0].1 else Greatest(s[1..])
  }

  lemma {:induction false} GreatestIsMax<I>(s: Scores<I>)
    requires s != []
    ensures exists i :: 0 <= i < |s| && s[i].1 == Greatest(s)
    ensures forall i :: 0 <= i < |s| ==> s[i].1 <= Greatest(s)
  {
    if |s| > 1 {
      GreatestIsMax(s[1..]);
      var i :| 0 <= i < |s[1..]| && s[1..][i].1 == Greatest(s[1..]);
      assert s[i + 1].1 == Greatest(s[1..]);
      assert s[0].1 >= Greatest(s[1..]) ==> s[0].1 == Greatest(s);
      assert forall j :: 1 <= j < |s| ==> s[j] == s[1..][j - 1];
    } else {
      assert s[0].1 == Greatest(s);
    }
  }

  /** The scores below the threshold, in order. */
  function Below<I>(s: Scores<I>, threshold: real): Scores<I> {
    if s == [] then []
    else (if s[0].1 < threshold then [s[0]] else []) + Below(s[1..], threshold)
  }

  lemma {:induction false} BelowIff<I>(s: Scores<I>, threshold: real, x: (I, real))
    ensures x in Below(s, threshold) <==> x in s && x.1 < threshold
  {
    if s != [] {
      BelowIff(s[1..], threshold, x);
    }
  }

  /** A threshold with all these scores below it has as many. */
  lemma {:induction false} BelowGrows<I>(s: Scores<I>, high: real, low: real)
    requires forall x :: x in s && x.1 < high ==> x.1 < low
    ensures |Below(s, high)| <= |Below(s, low)|
  {
    if s != [] {
      BelowGrows(s[1..], high, low);
    }
  }

  /** A lower threshold that some score between the two reaches has fewer scores below it. */
  lemma {:induction false} BelowShrinks<I>(s: Scores<I>, low: real, high: real)
    requires low <= high
    ensures |Below(s, low)| <= |Below(s, high)|
    ensures (exists i :: 0 <= i < |s| && low <= s[i].1 < high) ==> |Below(s, low)| < |Below(s, high)|
  {
    if s != [] {
      BelowShrinks(s[1..], low, high);
      if exists i :: 0 <= i < |s| && low <= s[i].1 < high {
        var i :| 0 <= i < |s| && low <= s[i].1 < high;
        if i > 0 {
          assert low <= s[1..][i - 1].1 < high;
        }
      }
    }
  }

  /** How the loop computes: `round` rounds a difference, `scale` is the rounded product with the coefficient. */
  datatype Arithmetic = Arithmetic(round: real -> real, scale: real -> real)

  ghost predicate Monotone(f: real -> real) {
    forall x, y :: x <= y ==> f(x) <= f(y)
  }

  /** As with a coefficient that is not negative. */
  ghost predicate Rising(a: Arithmetic) {
    Monotone(a.round) && Monotone(a.scale)
  }

  /** As with a negative coefficient. */
  ghost predicate Falling(a: Arithmetic) {
    && Monotone(a.round) && a.round(0.0) == 0.0 && a.scale(0.0) == 0.0
    && forall x :: x >= 0.0 ==> a.scale(x) <= 0.0
  }

  ghost predicate Exact<I>(a: Arithmetic, s: Scores<I>) {
    forall e :: e in s ==> a.round(e.1) == e.1
  }

  function Threshold<I>(a: Arithmetic, s: Scores<I>, stdev: real): real
    requires s != []
  {
    a.round(Greatest(s) - a.scale(stdev))
  }

  /** The outliers at a deviation. */
  function Out<I>(a: Arithmetic, s: Scores<I>, stdev: real): Scores<I>
    requires s != []
  {
    Below(s, Threshold(a, s, stdev))
  }

  predicate Few(k: nat, n: nat) {
    k == 0 || 2 * k < n
  }

  /** The loop stops: there is no outlier, or fewer than half of the `n` images are. */
  predicate Stops<I>(a: Arithmetic, s: Scores<I>, n: nat, stdev: real)
    requires s != []
  {
    Few(|Out(a, s, stdev)|, n)
  }

  /** The deviation for the next round. */
  function Retry<I>(a: Arithmetic, s: Scores<I>, n: nat, stdev: real): real
    requires s != [] && !Stops(a, s, n, stdev)
  {
    a.round(Greatest(s) - Greatest(Out(a, s, stdev)))
  }

  /** The threshold of the round after one whose best outlier has score `o`. */
  function Next<I>(a: Arithmetic, s: Scores<I>, o: real): real
    requires s != []
  {
    Threshold(a, s, a.round(Greatest(s) - o))
  }

  lemma NextRises<I>(a: Arithmetic, s: Scores<I>, o: real, p: real)
    requires Rising(a) && s != [] && o <= p
    ensures Next(a, s, o) <= Next(a, s, p)
  {
    var x, y := a.round(Greatest(s) - p), a.round(Greatest(s) - o);
    assert x <= y && a.scale(x) <= a.scale(y);
  }

  lemma GreatestBelow<I>(s: Scores<I>, threshold: real) returns (j: nat)
    requires Below(s, threshold) != []
    ensures j < |s| && s[j].1 == Greatest(Below(s, threshold)) < threshold
    ensures forall x :: x in s && x.1 < threshold ==> x.1 <= s[j].1
  {
    var out := Below(s, threshold);
    GreatestIsMax(out);
    var i :| 0 <= i < |out| && out[i].1 == Greatest(out);
    BelowIff(s, threshold, out[i]);
    j :| 0 <= j < |s| && s[j] == out[i];
    forall x | x in s && x.1 < threshold
      ensures x.1 <= s[j].1
    {
      BelowIff(s, threshold, x);
    }
  }

  /** A retry has fewer outliers if and only if the next threshold does not exceed the best outlier's score. */
  lemma RetryShrinks<I>(a: Arithmetic, s: Scores<I>, n: nat, stdev: real)
    requires s != [] && !Stops(a, s, n, stdev)
    ensures var out := Out(a, s, stdev);
            |Out(a, s, Retry(a, s, n, stdev))| < |out|
            <==> Next(a, s, Greatest(out)) <= Greatest(out)
  {
    var high := Threshold(a, s, stdev);
    var j := GreatestBelow(s, high);
    var low := Next(a, s, s[j].1);
    if low <= s[j].1 {
      BelowShrinks(s, low, high);
    } else {
      BelowGrows(s, high, low);
    }
  }

  // ---- The loop

  /** The deviation after `k` retries; None when the loop has stopped before. */
  function After<I>(a: Arithmetic, s: Scores<I>, n: nat, stdev: real, k: nat): Option<real>
    requires s != []
  {
    if k == 0 then Some(stdev)
    else
      match After(a, s, n, stdev, k - 1)
      case None => None
      case Some(x) =>
        if Stops(a, s, n, x) then None else Some(Retry(a, s, n, x))
  }

  ghost predicate Terminates<I>(a: Arithmetic, s: Scores<I>, n: nat, stdev: real)
    requires s != []
  {
    exists k :: After(a, s, n, stdev, k) == None
  }

  /** A retry after best outlier `o` changes nothing that matters: `o` stays an outlier of too many. */
  predicate Traps<I>(a: Arithmetic, s: Scores<I>, n: nat, o: real)
    requires s != []
  {
    var next := Next(a, s, o);
    next > o && !Few(|Below(s, next)|, n)
  }

  /** The loop has come to a threshold that is no lower than that of a trap. */
  predicate Trapped<I>(a: Arithmetic, s: Scores<I>, n: nat, stdev: real, o: real, k: nat)
    requires s != []
  {
    var x := After(a, s, n, stdev, k);
    x.Some? && Threshold(a, s, x.value) >= Next(a, s, o)
  }

  /** From there it never ends. */
  lemma {:induction false} TrappedForever<I>(a: Arithmetic, s: Scores<I>, n: nat, stdev: real,
                                             e: (I, real), k: nat, m: nat)
    requires Rising(a) && e in s && Traps(a, s, n, e.1)
    requires Trapped(a, s, n, stdev, e.1, k) && k <= m
    ensures Trapped(a, s, n, stdev, e.1, m)
    decreases m
  {
    if k < m {
      TrappedForever(a, s, n, stdev, e, k, m - 1);
      StaysTrapped(a, s, n, stdev, e, m - 1);
    }
  }

  lemma StaysTrapped<I>(a: Arithmetic, s: Scores<I>, n: nat, stdev: real, e: (I, real), k: nat)
    requires Rising(a) && e in s && Traps(a, s, n, e.1) && Trapped(a, s, n, stdev, e.1, k)
    ensures Trapped(a, s, n, stdev, e.1, k + 1)
  {
    var x := After(a, s, n, stdev, k).value;
    TrapHolds(a, s, n, x, e);
    OneMore(a, s, n, stdev, k, x);
  }

  lemma OneMore<I>(a: Arithmetic, s: Scores<I>, n: nat, stdev: real, k: nat, x: real)
    requires s != [] && After(a, s, n, stdev, k) == Some(x) && !Stops(a, s, n, x)
    ensures After(a, s, n, stdev, k + 1) == Some(Retry(a, s, n, x))
  {
  }

  lemma TrapHolds<I>(a: Arithmetic, s: Scores<I>, n: nat, stdev: real, e: (I, real))
    requires Rising(a) && e in s && Traps(a, s, n, e.1)
    requires Threshold(a, s, stdev) >= Next(a, s, e.1)
    ensures !Stops(a, s, n, stdev)
    ensures Threshold(a, s, Retry(a, s, n, stdev))
            >= Next(a, s, e.1)
  {
    var next, threshold := Next(a, s, e.1), Threshold(a, s, stdev);
    BelowGrows(s, next, threshold);
    var j := GreatestBelow(s, threshold);
    NextRises(a, s, e.1, s[j].1);
  }

  lemma NeverEnds<I>(a: Arithmetic, s: Scores<I>, n: nat, stdev: real, e: (I, real))
    requires Rising(a) && e in s && Traps(a, s, n, e.1)
    requires Threshold(a, s, stdev) >= Next(a, s, e.1)
    ensures !Terminates(a, s, n, stdev)
  {
    forall k: nat
      ensures After(a, s, n, stdev, k) != None
    {
      TrappedForever(a, s, n, stdev, e, 0, k);
    }
  }

  /** Every retry the loop makes from a starting deviation has fewer outliers. */
  ghost predicate AllShrink<I>(a: Arithmetic, s: Scores<I>, n: nat, stdev: real)
    requires s != []
  {
    forall k :: ShrinksAfter(a, s, n, stdev, k)
  }

  predicate ShrinksAfter<I>(a: Arithmetic, s: Scores<I>, n: nat, stdev: real, k: nat)
    requires s != []
  {
    match After(a, s, n, stdev, k)
    case None => true
    case Some(x) =>
      Stops(a, s, n, x)
      || var o := Greatest(Out(a, s, x)); Next(a, s, o) <= o
  }

  /** While every retry shrinks, the retries are counted by the outliers. */
  lemma {:induction false} ShrunkAfter<I>(a: Arithmetic, s: Scores<I>, n: nat, stdev: real, k: nat)
    requires s != [] && AllShrink(a, s, n, stdev)
    ensures match After(a, s, n, stdev, k)
            case None => true
            case Some(x) => |Out(a, s, x)| + k <= |Out(a, s, stdev)|
  {
    if k > 0 {
      ShrunkAfter(a, s, n, stdev, k - 1);
      var before := After(a, s, n, stdev, k - 1);
      assert ShrinksAfter(a, s, n, stdev, k - 1);
      if before.Some? && !Stops(a, s, n, before.value) {
        RetryShrinks(a, s, n, before.value);
      }
    }
  }

  /** From a given deviation the loop ends if and only if no retry repeats or enlarges the outliers. */
  lemma EndsIffAllShrink<I>(a: Arithmetic, s: Scores<I>, n: nat, stdev: real)
    requires Rising(a) && s != []
    ensures Terminates(a, s, n, stdev) <==> AllShrink(a, s, n, stdev)
  {
    if AllShrink(a, s, n, stdev) {
      var k := |Out(a, s, stdev)| + 1;
      ShrunkAfter(a, s, n, stdev, k);
      assert After(a, s, n, stdev, k) == None;
    } else {
      var k :| !ShrinksAfter(a, s, n, stdev, k);
      forall i: nat
        ensures After(a, s, n, stdev, i) != None
      {
        StuckAfter(a, s, n, stdev, k, i);
      }
    }
  }

  /** A retry that does not shrink is a trap. */
  lemma StuckIsTrap<I>(a: Arithmetic, s: Scores<I>, n: nat, stdev: real) returns (e: (I, real))
    requires s != [] && !Stops(a, s, n, stdev)
    requires var o := Greatest(Out(a, s, stdev)); Next(a, s, o) > o
    ensures e in s && Traps(a, s, n, e.1)
    ensures Threshold(a, s, Retry(a, s, n, stdev))
            == Next(a, s, e.1)
  {
    var high := Threshold(a, s, stdev);
    var j := GreatestBelow(s, high);
    e := s[j];
    BelowGrows(s, high, Next(a, s, e.1));
  }

  lemma StuckAfter<I>(a: Arithmetic, s: Scores<I>, n: nat, stdev: real, k: nat, i: nat)
    requires Rising(a) && s != [] && !ShrinksAfter(a, s, n, stdev, k)
    ensures After(a, s, n, stdev, i) != None
  {
    if i <= k {
      SomeBefore(a, s, n, stdev, k, i);
    } else {
      var x := After(a, s, n, stdev, k).value;
      var e := StuckIsTrap(a, s, n, x);
      OneMore(a, s, n, stdev, k, x);
      TrappedForever(a, s, n, stdev, e, k + 1, i);
    }
  }

  lemma {:induction false} SomeBefore<I>(a: Arithmetic, s: Scores<I>, n: nat, stdev: real,
                                         k: nat, i: nat)
    requires s != [] && After(a, s, n, stdev, k).Some? && i <= k
    ensures After(a, s, n, stdev, i).Some?
    decreases k
  {
    if i < k {
      SomeBefore(a, s, n, stdev, k - 1, i);
    }
  }

  /** For given scores and image count the loop ends from every deviation if and only if no score is a trap. */
  lemma EndsIffNoTrap<I>(a: Arithmetic, s: Scores<I>, n: nat)
    requires Rising(a) && s != []
    ensures (forall stdev: real :: Terminates(a, s, n, stdev))
            <==> forall e :: e in s ==> !Traps(a, s, n, e.1)
  {
    if forall e :: e in s ==> !Traps(a, s, n, e.1) {
      forall stdev: real
        ensures Terminates(a, s, n, stdev)
      {
        EndsWithoutTrap(a, s, n, stdev);
      }
    } else {
      var e :| e in s && Traps(a, s, n, e.1);
      NeverEnds(a, s, n, a.round(Greatest(s) - e.1), e);
    }
  }

  lemma EndsWithoutTrap<I>(a: Arithmetic, s: Scores<I>, n: nat, stdev: real)
    requires Rising(a) && s != []
    requires forall e :: e in s ==> !Traps(a, s, n, e.1)
    ensures Terminates(a, s, n, stdev)
  {
    EndsIffAllShrink(a, s, n, stdev);
    forall k
      ensures ShrinksAfter(a, s, n, stdev, k)
    {
      var x := After(a, s, n, stdev, k);
      if x.Some? && !Stops(a, s, n, x.value) {
        var high := Threshold(a, s, x.value);
        var j := GreatestBelow(s, high);
        assert !Traps(a, s, n, s[j].1);
        if Next(a, s, s[j].1) > s[j].1 {
          BelowGrows(s, high, Next(a, s, s[j].1));
        }
      }
    }
  }

  /** With a negative coefficient the threshold is never below the best score, so the loop ends if and only if the
      other scores are few. */
  lemma EndsIffNegative<I>(a: Arithmetic, s: Scores<I>, n: nat, stdev: real)
    requires Falling(a) && Exact(a, s) && s != [] && stdev >= 0.0
    ensures Terminates(a, s, n, stdev) <==> Few(|Below(s, Greatest(s))|, n)
  {
    if Few(|Below(s, Greatest(s))|, n) {
      NegativeEnds(a, s, n, stdev);
    } else {
      forall k: nat
        ensures After(a, s, n, stdev, k) != None
      {
        NegativeForever(a, s, n, stdev, k);
      }
    }
  }

  lemma NegativeThreshold<I>(a: Arithmetic, s: Scores<I>, stdev: real)
    requires Falling(a) && Exact(a, s) && s != [] && stdev >= 0.0
    ensures Threshold(a, s, stdev) >= Greatest(s)
    ensures stdev == 0.0 ==> Threshold(a, s, stdev) == Greatest(s)
  {
    GreatestIsMax(s);
    var i :| 0 <= i < |s| && s[i].1 == Greatest(s);
    assert s[i] in s;
    assert a.round(Greatest(s)) <= a.round(Greatest(s) - a.scale(stdev));
  }

  lemma {:induction false} NegativeForever<I>(a: Arithmetic, s: Scores<I>, n: nat, stdev: real,
                                              k: nat)
    requires Falling(a) && Exact(a, s) && s != [] && stdev >= 0.0
    requires !Few(|Below(s, Greatest(s))|, n)
    ensures match After(a, s, n, stdev, k) case None => false case Some(x) => x >= 0.0
  {
    if k > 0 {
      NegativeForever(a, s, n, stdev, k - 1);
      var x := After(a, s, n, stdev, k - 1).value;
      NegativeThreshold(a, s, x);
      BelowGrows(s, Greatest(s), Threshold(a, s, x));
      RetryNotNegative(a, s, n, x);
    }
  }

  lemma RetryNotNegative<I>(a: Arithmetic, s: Scores<I>, n: nat, stdev: real)
    requires Monotone(a.round) && a.round(0.0) == 0.0 && s != [] && !Stops(a, s, n, stdev)
    ensures Retry(a, s, n, stdev) >= 0.0
  {
    var j := GreatestBelow(s, Threshold(a, s, stdev));
    GreatestIsMax(s);
    assert a.round(0.0) <= a.round(Greatest(s) - s[j].1);
  }

  lemma NegativeEnds<I>(a: Arithmetic, s: Scores<I>, n: nat, stdev: real)
    requires Falling(a) && Exact(a, s) && s != [] && stdev >= 0.0
    requires Few(|Below(s, Greatest(s))|, n)
    ensures Terminates(a, s, n, stdev)
  {
    if Stops(a, s, n, stdev) {
      assert After(a, s, n, stdev, 1) == None;
    } else {
      var threshold := Threshold(a, s, stdev);
      NegativeThreshold(a, s, stdev);
      var j := GreatestBelow(s, threshold);
      GreatestIsMax(s);
      if s[j].1 < Greatest(s) {
        BelowGrows(s, threshold, Greatest(s));
      }
      var next := Retry(a, s, n, stdev);
      assert next == 0.0;
      NegativeThreshold(a, s, next);
      assert After(a, s, n, stdev, 1) == Some(next);
      assert After(a, s, n, stdev, 2) == None;
    }
  }

  /** With a coefficient that is not negative the best score is never an outlier. */
  lemma {:induction false} BestIsKept<I>(a: Arithmetic, s: Scores<I>, n: nat, stdev: real, k: nat)
    requires Rising(a) && a.round(0.0) == 0.0 && a.scale(0.0) == 0.0 && Exact(a, s) && s != [] && stdev >= 0.0
    ensures match After(a, s, n, stdev, k)
            case None => true
            case Some(x) => x >= 0.0 && Threshold(a, s, x) <= Greatest(s)
  {
    if k > 0 {
      BestIsKept(a, s, n, stdev, k - 1);
      var before := After(a, s, n, stdev, k - 1);
      if before.Some? && !Stops(a, s, n, before.value) {
        RetryNotNegative(a, s, n, before.value);
      }
    }
    var x := After(a, s, n, stdev, k);
    if x.Some? {
      GreatestIsMax(s);
      var i :| 0 <= i < |s| && s[i].1 == Greatest(s);
      assert s[i] in s;
      assert a.scale(0.0) <= a.scale(x.value);
      assert a.round(Greatest(s) - a.scale(x.value)) <= a.round(Greatest(s));
    }
  }

  // ---- Two arithmetics

  function Times(x: real, c: real): real {
    x * c
  }

  /** The numbers of the code. */
  function Floats(coefficient: real): Arithmetic {
    Arithmetic(Binary64.Round, x => Binary64.Round(Times(x, coefficient)))
  }

  function Reals(coefficient: real): Arithmetic {
    Arithmetic(x => x, x => Times(x, coefficient))
  }

  lemma TimesMonotone(x: real, y: real, c: real)
    requires x <= y && c >= 0.0
    ensures Times(x, c) <= Times(y, c)
  {
    Binary64.TimesNonNegative(y - x, c);
    assert (y - x) * c == y * c - x * c;
  }

  lemma NegativeProduct(x: real, c: real)
    requires x >= 0.0 && c < 0.0
    ensures Times(x, c) <= 0.0
  {
    Binary64.TimesNonNegative(x, -c);
    assert x * -c == -(x * c);
  }

  lemma RoundMonotone()
    ensures Monotone(Binary64.Round)
  {
    var f := Binary64.Round;
    forall x, y | x <= y
      ensures f(x) <= f(y)
    {
      Binary64.RoundIsMonotone(x, y);
    }
  }

  lemma FloatsRise(coefficient: real)
    requires coefficient >= 0.0
    ensures Rising(Floats(coefficient))
  {
    RoundMonotone();
    var f := Floats(coefficient).scale;
    forall x, y | x <= y
      ensures f(x) <= f(y)
    {
      TimesMonotone(x, y, coefficient);
      Binary64.RoundIsMonotone(Times(x, coefficient), Times(y, coefficient));
    }
  }

  lemma FloatsFall(coefficient: real)
    requires coefficient < 0.0
    ensures Falling(Floats(coefficient))
  {
    RoundMonotone();
    var f := Floats(coefficient).scale;
    forall x | x >= 0.0
      ensures f(x) <= 0.0
    {
      NegativeProduct(x, coefficient);
      Binary64.RoundIsMonotone(Times(x, coefficient), 0.0);
    }
    assert Times(0.0, coefficient) == 0.0;
  }

  lemma RealsRise(coefficient: real)
    requires coefficient >= 0.0
    ensures Rising(Reals(coefficient))
  {
    var f := Reals(coefficient).scale;
    forall x, y | x <= y
      ensures f(x) <= f(y)
    {
      TimesMonotone(x, y, coefficient);
    }
  }

  lemma RealsFall(coefficient: real)
    requires coefficient < 0.0
    ensures Falling(Reals(coefficient))
  {
    var f := Reals(coefficient).scale;
    forall x | x >= 0.0
      ensures f(x) <= 0.0
    {
      NegativeProduct(x, coefficient);
    }
    assert Times(0.0, coefficient) == 0.0;
  }

  /** For all scores of two images or more, from every deviation the loop can start with. */
  ghost predicate AlwaysEnds(a: Arithmetic) {
    forall s: Scores<int>, stdev: real | |s| >= 2 && Exact(a, s) && stdev >= 0.1 :: Terminates(a, s, |s|, stdev)
  }

  /** Above one the next threshold does not exceed the score it comes from. */
  lemma FloatsNext(coefficient: real, greatest: real, o: real)
    requires Binary64.Representable(coefficient) && coefficient > 1.0
    requires o <= greatest && Binary64.Representable(o)
    ensures Binary64.Round(greatest - Binary64.Round(Times(Binary64.Round(greatest - o), coefficient))) <= o
  {
    var d := Binary64.Round(greatest - o);
    Binary64.AboveOne(coefficient);
    Binary64.ProductMakesUp(greatest - o, d, coefficient, Times(d, coefficient));
    Binary64.RoundIsMonotone(greatest - Binary64.Round(Times(d, coefficient)), o);
  }

  lemma FloatsNotTrapped<I>(coefficient: real, s: Scores<I>, n: nat, e: (I, real))
    requires Binary64.Representable(coefficient) && coefficient > 1.0
    requires Exact(Floats(coefficient), s) && e in s
    ensures !Traps(Floats(coefficient), s, n, e.1)
  {
    GreatestIsMax(s);
    var i :| 0 <= i < |s| && s[i] == e;
    assert Floats(coefficient).round(e.1) == e.1;
    FloatsNext(coefficient, Greatest(s), e.1);
  }

  const THIRD: real := 7720456504063707.0 / 18014398509481984.0
  const GAP: real := 2573485501354569.0 / 4503599627370496.0
  const BACK: real := 1930114126015927.0 / 4503599627370496.0

  /** The scores of the names aaa, aaabcdefg and aaahijklm: 1 and two times 3/7, the latter rounded. */
  function SevenGrams(): Scores<int> {
    [(0, 1.0), (1, THIRD), (2, THIRD)]
  }

  /** Rounding at these scores: the difference to the best score is a tie that is rounded down. */
  lemma SevenGramsRounded()
    ensures Binary64.Round(1.0) == 1.0 && Binary64.Round(THIRD) == THIRD && Binary64.Round(GAP) == GAP
    ensures Binary64.Round(1.0 - THIRD) == GAP
    ensures Binary64.Round(1.0 - GAP) == BACK && BACK > THIRD
  {
    assert Binary64.NearestInteger(Binary64.STEPS) == 4503599627370496;
    assert Binary64.NearestInteger(4.0 * THIRD * Binary64.STEPS) == 7720456504063707;
    assert Binary64.RoundPositive(2.0 * THIRD) == Binary64.NearestStep(4.0 * THIRD) / 2.0;
    assert Binary64.NearestInteger(2.0 * GAP * Binary64.STEPS) == 5146971002709138;
    assert Binary64.NearestInteger((2.0 - 2.0 * THIRD) * Binary64.STEPS) == 5146971002709138;
    assert Binary64.RoundPositive(2.0 * (1.0 - THIRD)) == Binary64.NearestStep(2.0 - 2.0 * THIRD);
    assert Binary64.RoundPositive(1.0 - THIRD) == Binary64.NearestStep(2.0 - 2.0 * THIRD) / 2.0;
    assert Binary64.NearestInteger(4.0 * (1.0 - GAP) * Binary64.STEPS) == 7720456504063708;
    assert Binary64.RoundPositive(2.0 * (1.0 - GAP)) == Binary64.NearestStep(4.0 * (1.0 - GAP)) / 2.0;
  }

  /** With a coefficient of at most one the loop does not end on these scores. */
  lemma SevenGramsEndless(coefficient: real, stdev: real)
    requires coefficient <= 1.0 && 0.0 <= stdev <= GAP
    ensures Exact(Floats(coefficient), SevenGrams())
    ensures !Terminates(Floats(coefficient), SevenGrams(), 3, stdev)
  {
    var a, s := Floats(coefficient), SevenGrams();
    SevenGramsRounded();
    SevenGramsBelow();
    if coefficient < 0.0 {
      FloatsFall(coefficient);
      EndsIffNegative(a, s, 3, stdev);
    } else {
      FloatsRise(coefficient);
      AtMostItself(GAP, coefficient);
      Binary64.RoundIsMonotone(Times(GAP, coefficient), GAP);
      Binary64.RoundIsMonotone(1.0 - GAP, 1.0 - a.scale(GAP));
      assert Next(a, s, THIRD) >= BACK;
      BelowGrows(s, BACK, Next(a, s, THIRD));
      assert (1, THIRD) in s && Traps(a, s, 3, THIRD);
      assert a.scale(stdev) <= a.scale(GAP);
      assert a.round(1.0 - a.scale(GAP)) <= a.round(1.0 - a.scale(stdev));
      NeverEnds(a, s, 3, stdev, (1, THIRD));
    }
  }

  lemma AtMostItself(x: real, c: real)
    requires x >= 0.0 && c <= 1.0
    ensures Times(x, c) <= x
  {
    Binary64.TimesNonNegative(x, 1.0 - c);
    assert x * (1.0 - c) == x - x * c;
  }

  lemma SevenGramsBelow()
    ensures Greatest(SevenGrams()) == 1.0
    ensures |Below(SevenGrams(), BACK)| == 2 && |Below(SevenGrams(), 1.0)| == 2
  {
    var s := SevenGrams();
    assert s[1..] == [(1, THIRD), (2, THIRD)] && s[1..][1..] == [(2, THIRD)];
    assert Greatest(s[1..]) == THIRD;
    forall threshold | THIRD < threshold <= 1.0
      ensures |Below(s, threshold)| == 2
    {
      assert Below(s[1..][1..], threshold) == [(2, THIRD)];
      assert Below(s[1..], threshold) == [(1, THIRD)] + [(2, THIRD)];
      assert Below(s, threshold) == [] + Below(s[1..], threshold);
    }
  }

  /** In the code's arithmetic the loop ends for all scores and starting deviations if and only if the coefficient is
      greater than one: at the default of exactly one it does not. */
  lemma FloatsEndIff(coefficient: real)
    requires Binary64.Representable(coefficient)
    ensures AlwaysEnds(Floats(coefficient)) <==> coefficient > 1.0
  {
    var a := Floats(coefficient);
    if coefficient > 1.0 {
      FloatsRise(coefficient);
      forall s: Scores<int>, stdev: real | |s| >= 2 && Exact(a, s) && stdev >= 0.1
        ensures Terminates(a, s, |s|, stdev)
      {
        forall e | e in s
          ensures !Traps(a, s, |s|, e.1)
        {
          FloatsNotTrapped(coefficient, s, |s|, e);
        }
        EndsWithoutTrap(a, s, |s|, stdev);
      }
    } else {
      SevenGramsEndless(coefficient, 0.5);
      var s := SevenGrams();
      assert |s| == 3 && Exact(a, s) && !Terminates(a, s, |s|, 0.5);
    }
  }

  function Sum<I>(s: Scores<I>): real {
    if s == [] then 0.0 else s[0].1 + Sum(s[1..])
  }

  function Squares<I>(s: Scores<I>, mean: real): real {
    if s == [] then 0.0 else (s[0].1 - mean) * (s[0].1 - mean) + Squares(s[1..], mean)
  }

  /** The square of the standard deviation of a sample. */
  function Variance<I>(s: Scores<I>): real
    requires |s| >= 2
  {
    Squares(s, Sum(s) / |s| as real) / (|s| - 1) as real
  }

  /** The deviation of these scores lies in the range from which the loop does not end. */
  lemma SevenGramsVariance()
    ensures 0.1 * 0.1 <= Variance(SevenGrams()) <= GAP * GAP
  {
    var s := SevenGrams();
    assert s[1..] == [(1, THIRD), (2, THIRD)] && s[1..][1..] == [(2, THIRD)] && s[1..][1..][1..] == [];
    var mean := Sum(s) / 3.0;
    assert Sum(s[1..][1..]) == THIRD && Sum(s[1..]) == 2.0 * THIRD;
    assert Squares(s[1..][1..], mean) == (THIRD - mean) * (THIRD - mean);
    assert Squares(s[1..], mean) == 2.0 * ((THIRD - mean) * (THIRD - mean));
  }

  // ---- Without rounding

  /** The scores of the names aaa, aaab, aaac and aaad, without rounding: their deviation is 3/16. */
  function FourGrams(): Scores<int> {
    [(0, 1.0), (1, 0.625), (2, 0.625), (3, 0.625)]
  }

  lemma FourGramsVariance()
    ensures Variance(FourGrams()) == 0.1875 * 0.1875
  {
    var s := FourGrams();
    assert s[1..] == [(1, 0.625), (2, 0.625), (3, 0.625)] && s[1..][1..] == [(2, 0.625), (3, 0.625)];
    assert s[1..][1..][1..] == [(3, 0.625)] && s[1..][1..][1..][1..] == [];
    assert Sum(s[1..][1..][1..]) == 0.625 && Sum(s[1..][1..]) == 1.25 && Sum(s) == 2.875;
    var mean := 0.71875;
    assert Squares(s[1..][1..][1..], mean) == 0.0087890625;
    assert Squares(s[1..][1..], mean) == 0.017578125;
  }

  lemma FourGramsBelow(threshold: real)
    requires 0.625 < threshold <= 1.0
    ensures Greatest(FourGrams()) == 1.0 && |Below(FourGrams(), threshold)| == 3
  {
    var s := FourGrams();
    assert s[1..] == [(1, 0.625), (2, 0.625), (3, 0.625)] && s[1..][1..] == [(2, 0.625), (3, 0.625)];
    assert s[1..][1..][1..] == [(3, 0.625)];
    assert Greatest(s[1..][1..]) == 0.625 && Greatest(s[1..]) == 0.625;
    assert Below(s[1..][1..][1..], threshold) == [(3, 0.625)];
    assert Below(s[1..][1..], threshold) == [(2, 0.625)] + [(3, 0.625)];
    assert Below(s[1..], threshold) == [(1, 0.625)] + Below(s[1..][1..], threshold);
    assert Below(s, threshold) == [] + Below(s[1..], threshold);
  }

  /** With a smaller coefficient the loop does not end on scores with their own deviation. */
  lemma Endless(coefficient: real)
    requires coefficient < 1.0
    ensures !Terminates(Reals(coefficient), FourGrams(), 4, 0.1875)
  {
    var a, s := Reals(coefficient), FourGrams();
    FourGramsBelow(1.0);
    if coefficient < 0.0 {
      RealsFall(coefficient);
      EndsIffNegative(a, s, 4, 0.1875);
    } else {
      RealsRise(coefficient);
      var next := 1.0 - Times(0.375, coefficient);
      assert Times(0.375, coefficient) == 0.375 * coefficient && Times(0.1875, coefficient) == 0.1875 * coefficient;
      assert Next(a, s, 0.625) == next;
      FourGramsBelow(next);
      assert (1, 0.625) in s && Traps(a, s, 4, 0.625);
      NeverEnds(a, s, 4, 0.1875, (1, 0.625));
    }
  }

  /** Without rounding the loop ends for all scores and starting deviations just when the coefficient is at least 1. */
  lemma TerminationIff(coefficient: real)
    ensures AlwaysEnds(Reals(coefficient)) <==> coefficient >= 1.0
  {
    var a := Reals(coefficient);
    if coefficient >= 1.0 {
      RealsRise(coefficient);
      forall s: Scores<int>, stdev: real | |s| >= 2 && Exact(a, s) && stdev >= 0.1
        ensures Terminates(a, s, |s|, stdev)
      {
        forall e | e in s
          ensures !Traps(a, s, |s|, e.1)
        {
          GreatestIsMax(s);
          AtLeastItself(Greatest(s) - e.1, coefficient);
        }
        EndsWithoutTrap(a, s, |s|, stdev);
      }
    } else {
      Endless(coefficient);
      var s := FourGrams();
      assert |s| == 4 && Exact(a, s) && !Terminates(a, s, |s|, 0.1875);
    }
  }

  lemma AtLeastItself(x: real, c: real)
    requires x >= 0.0 && c >= 1.0
    ensures Times(x, c) >= x
  {
    Binary64.TimesNonNegative(x, c - 1.0);
    assert x * (c - 1.0) == x * c - x;
  }

  function Images<I>(s: Scores<I>): seq<I> {
    if s == [] then [] else [s[0].0] + Images(s[1..])
  }

  lemma {:induction false} ImagesLength<I>(s: Scores<I>)
    ensures |Images(s)| == |s|
  {
    if s != [] {
      ImagesLength(s[1..]);
    }
  }

  /** Every outlier is one of the images. */
  lemma {:induction false} OutliersAreImages<I>(s: Scores<I>, threshold: real, x: I)
    requires x in Images(Below(s, threshold))
    ensures x in Images(s)
  {
    var rest := Below(s[1..], threshold);
    if s[0].1 < threshold {
      assert Below(s, threshold)[1..] == rest;
    } else {
      assert Below(s, threshold) == rest;
    }
    if x != s[0].0 {
      OutliersAreImages(s[1..], threshold, x);
    }
  }

  function Keep<I(==)>(images: seq<I>, outliers: seq<I>): seq<I> {
    if images == [] then []
    else (if images[0] !in outliers then [images[0]] else []) + Keep(images[1..], outliers)
  }

  lemma {:induction false} KeepIff<I>(images: seq<I>, outliers: seq<I>, x: I)
    ensures x in Keep(images, outliers) <==> x in images && x !in outliers
  {
    if images != [] {
      KeepIff(images[1..], outliers, x);
    }
  }

  /** `kept` is the images that are no outliers, in their order: `places` are their positions. */
  ghost predicate KeptInOrder<I>(images: seq<I>, outliers: seq<I>, kept: seq<I>, places: seq<nat>) {
    && |places| == |kept|
    && (forall i, j :: 0 <= i < j < |places| ==> places[i] < places[j])
    && (forall i :: 0 <= i < |places| ==> places[i] < |images| && images[places[i]] == kept[i])
    && (forall p: nat :: p in places <==> p < |images| && images[p] !in outliers)
  }

  function OneUp(places: seq<nat>): (up: seq<nat>)
    ensures |up| == |places| && forall i :: 0 <= i < |places| ==> up[i] == places[i] + 1
  {
    seq(|places|, i requires 0 <= i < |places| => places[i] + 1)
  }

  lemma InOneUp(places: seq<nat>, p: nat)
    ensures p in OneUp(places) <==> p > 0 && p - 1 in places
  {
    if p > 0 && p - 1 in places {
      var i :| 0 <= i < |places| && places[i] == p - 1;
      assert OneUp(places)[i] == p;
    }
  }

  lemma {:induction false} KeepInOrder<I>(images: seq<I>, outliers: seq<I>) returns (places: seq<nat>)
    ensures KeptInOrder(images, outliers, Keep(images, outliers), places)
  {
    if images == [] {
      places := [];
    } else {
      var rest := KeepInOrder(images[1..], outliers);
      places := (if images[0] !in outliers then [0] else []) + OneUp(rest);
      ConsKept(images, outliers, Keep(images[1..], outliers), rest);
    }
  }

  lemma ConsKept<I>(images: seq<I>, outliers: seq<I>, kept: seq<I>, rest: seq<nat>)
    requires images != [] && KeptInOrder(images[1..], outliers, kept, rest)
    ensures KeptInOrder(images, outliers, (if images[0] !in outliers then [images[0]] else []) + kept,
                        (if images[0] !in outliers then [0] else []) + OneUp(rest))
  {
    var places := (if images[0] !in outliers then [0] else []) + OneUp(rest);
    forall p: nat
      ensures p in places <==> p < |images| && images[p] !in outliers
    {
      InOneUp(rest, p);
      if p > 0 {
        assert p - 1 in rest <==> p - 1 < |images[1..]| && images[1..][p - 1] !in outliers;
      }
    }
  }

  /** Outliers by a threshold and the other images split the images. */
  lemma Split<I>(images: seq<I>, s: Scores<I>, threshold: real, x: I)
    requires x in images <==> x in Images(s)
    ensures var outliers := Images(Below(s, threshold));
            && (x in images <==> x in outliers || x in Keep(images, outliers))
            && !(x in outliers && x in Keep(images, outliers))
  {
    var outliers := Images(Below(s, threshold));
    KeepIff(images, outliers, x);
    if x in outliers {
      OutliersAreImages(s, threshold, x);
    }
  }


  /** The loop: the first threshold with none or fewer than half of the images below it. */
  method Lower<I>(scores: Scores<I>, n: nat, start: real, a: Arithmetic)
    returns (out: Scores<I>, threshold: real, ghost retries: nat, ghost stdev: real)
    requires scores != [] && Terminates(a, scores, n, start)
    ensures After(a, scores, n, start, retries) == Some(stdev)
    ensures threshold == Threshold(a, scores, stdev) && out == Below(scores, threshold)
    ensures |out| == 0 || 2 * |out| < n
    ensures forall k :: 0 <= k < retries ==> GoesOn(a, scores, n, start, k)
  {
    ghost var end: nat :| After(a, scores, n, start, end) == None;
    var current := start;
    threshold := a.round(Greatest(scores) - a.scale(current));
    out, retries := Below(scores, threshold), 0;
    while !(|out| == 0 || 2 * |out| < n)
      invariant threshold == Threshold(a, scores, current) && out == Out(a, scores, current) && retries < end
      invariant After(a, scores, n, start, retries) == Some(current)
      invariant forall k :: 0 <= k < retries ==> GoesOn(a, scores, n, start, k)
      decreases end - retries
    {
      OneMore(a, scores, n, start, retries, current);
      NotYet(a, scores, n, start, retries + 1, end);
      current := a.round(Greatest(scores) - Greatest(out));
      retries := retries + 1;
      threshold := a.round(Greatest(scores) - a.scale(current));
      out := Below(scores, threshold);
    }
    stdev := current;
  }

  /** The loop and its result, given the scores of the distinct images and their standard deviation, whenever the loop
      ends. The outliers are those below the first threshold that leaves none or fewer than half; the others are
      kept. */
  method FindOutliers<I(==, !new)>(images: seq<I>, scores: Scores<I>, deviation: real, a: Arithmetic)
    returns (outliers: seq<I>, kept: seq<I>, ghost retries: nat, ghost stdev: real, ghost places: seq<nat>)
    requires forall x :: x in images <==> x in Images(scores)
    requires |scores| >= 2 ==> Terminates(a, scores, |images|, Start(deviation))
    ensures |outliers| == 0 || 2 * |outliers| < |images|
    ensures forall x :: x in images <==> x in outliers || x in kept
    ensures forall x :: !(x in outliers && x in kept)
    ensures KeptInOrder(images, outliers, kept, places)
    ensures |scores| < 2 ==> outliers == []
    ensures |scores| >= 2 ==>
              && After(a, scores, |images|, Start(deviation), retries) == Some(stdev)
              && outliers == Images(Out(a, scores, stdev))
              && forall k :: 0 <= k < retries ==> GoesOn(a, scores, |images|, Start(deviation), k)
  {
    retries, stdev := 0, 0.0;
    if |scores| >= 2 {
      var scoresOutliers, threshold;
      scoresOutliers, threshold, retries, stdev := Lower(scores, |images|, Start(deviation), a);
      outliers := Images(scoresOutliers);
      ImagesLength(scoresOutliers);
      forall x
        ensures x in images <==> x in outliers || x in Keep(images, outliers)
        ensures !(x in outliers && x in Keep(images, outliers))
      {
        Split(images, scores, threshold, x);
      }
    } else {
      outliers := [];
      forall x
        ensures x in images <==> x in Keep(images, outliers)
      {
        KeepIff(images, outliers, x);
      }
    }
    kept := Keep(images, outliers);
    places := KeepInOrder(images, outliers);
  }

  /** After `k` retries at least half of the images, and at least one, are below the threshold. */
  ghost predicate GoesOn<I>(a: Arithmetic, s: Scores<I>, n: nat, stdev: real, k: nat)
    requires s != []
  {
    match After(a, s, n, stdev, k)
    case None => false
    case Some(x) => |Below(s, a.round(Greatest(s) - a.scale(x)))| > 0
                    && 2 * |Below(s, a.round(Greatest(s) - a.scale(x)))| >= n
  }

  /** The first deviation of the loop: the one given, but at least 0.1. */
  function Start(deviation: real): (start: real)
    ensures start >= 0.1 && start >= deviation && (start == 0.1 || start == deviation)
  {
    if deviation < 0.1 then 0.1 else deviation
  }

  lemma NotYet<I>(a: Arithmetic, s: Scores<I>, n: nat, stdev: real, k: nat, end: nat)
    requires s != [] && After(a, s, n, stdev, k).Some? && After(a, s, n, stdev, end).None?
    ensures k < end
  {
    if end <= k {
      SomeBefore(a, s, n, stdev, k, end);
    }
  }
}
