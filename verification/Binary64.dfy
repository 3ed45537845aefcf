/** Rounding to the nearest binary64 number, ties to even, with exponents that do not run out. */
module Binary64 {
  /** 2 to the 52: numbers from one to two are multiples of `1.0 / STEPS`. */
  const STEPS: real := 4503599627370496.0

  function NearestInteger(q: real): (n: int)
    ensures -0.5 <= (n as real) - q <= 0.5
    ensures q == q.Floor as real ==> n == q.Floor
  {
    var f := q.Floor;
    var r := q - f as real;
    if r < 0.5 || (r == 0.5 && f % 2 == 0) then f else f + 1
  }

  lemma NearestIsMonotone(p: real, q: real)
    requires p <= q
    ensures NearestInteger(p) <= NearestInteger(q)
  {
    if p.Floor == q.Floor {
      assert p - p.Floor as real <= q - q.Floor as real;
    } else {
      assert p.Floor < q.Floor;
    }
  }

  /** The rounding between one and two. */
  function NearestStep(x: real): real {
    NearestInteger(x * STEPS) as real / STEPS
  }

  lemma StepBounds(x: real)
    requires 1.0 <= x <= 2.0
    ensures 1.0 <= NearestStep(x) <= 2.0
    ensures x - 0.5 / STEPS <= NearestStep(x) <= x + 0.5 / STEPS
  {
    NearestIsMonotone(STEPS, x * STEPS);
    NearestIsMonotone(x * STEPS, 2.0 * STEPS);
  }

  lemma StepIsMonotone(x: real, y: real)
    requires x <= y
    ensures NearestStep(x) <= NearestStep(y)
  {
    NearestIsMonotone(x * STEPS, y * STEPS);
  }

  /** How often a positive number below one can be doubled before it reaches one, at the most. */
  function Room(x: real): nat
    requires x > 0.0
  {
    (1.0 / x).Floor
  }

  lemma ProductPositive(x: real, y: real)
    requires x > 0.0 && y > 0.0
    ensures x * y > 0.0
  {
  }

  lemma RoomShrinks(x: real)
    requires 0.0 < x < 1.0
    ensures Room(2.0 * x) < Room(x)
  {
    var y := 1.0 / x;
    assert x * y == 1.0;
    ProductPositive(1.0 - x, y);
    assert (1.0 - x) * y == y - x * y;
    assert (2.0 * x) * (y / 2.0) == x * y;
    assert 1.0 / (2.0 * x) == y / 2.0;
  }

  function RoundPositive(x: real): real
    requires x > 0.0
    decreases if x < 1.0 then 1 else 0, if x < 1.0 then Room(x) else x.Floor
  {
    if x < 1.0 then
      RoomShrinks(x);
      RoundPositive(2.0 * x) / 2.0
    else if x < 2.0 then NearestStep(x)
    else RoundPositive(x / 2.0) * 2.0
  }

  function Round(x: real): real {
    if x > 0.0 then RoundPositive(x) else if x == 0.0 then 0.0 else -RoundPositive(-x)
  }

  predicate Representable(x: real) {
    Round(x) == x
  }

  lemma RoundDoubles(x: real)
    requires x > 0.0
    ensures RoundPositive(2.0 * x) == 2.0 * RoundPositive(x)
  {
  }

  /** The relative error is at most half a step. */
  lemma {:induction false} RoundIsClose(x: real)
    requires x > 0.0
    ensures x - x / 9007199254740992.0 <= RoundPositive(x) <= x + x / 9007199254740992.0
    decreases if x < 1.0 then 1 else 0, if x < 1.0 then Room(x) else x.Floor
  {
    if x < 1.0 {
      RoomShrinks(x);
      RoundIsClose(2.0 * x);
      RoundDoubles(x);
    } else if x >= 2.0 {
      RoundIsClose(x / 2.0);
      RoundDoubles(x / 2.0);
    } else {
      StepBounds(x);
    }
  }

  /** Rounding does not cross a power of two. */
  lemma {:induction false} UpToOne(x: real)
    requires 0.0 < x <= 1.0
    ensures 0.0 < RoundPositive(x) <= 1.0
    decreases Room(x)
  {
    if x == 1.0 {
      StepBounds(x);
      assert NearestInteger(STEPS) as real == STEPS;
    } else {
      RoomShrinks(x);
      RoundDoubles(x);
      if 2.0 * x <= 1.0 {
        UpToOne(2.0 * x);
      } else {
        StepBounds(2.0 * x);
      }
    }
  }

  lemma {:induction false} FromOne(x: real)
    requires x >= 1.0
    ensures RoundPositive(x) >= 1.0
    decreases x.Floor
  {
    if x < 2.0 {
      StepBounds(x);
    } else {
      FromOne(x / 2.0);
    }
  }

  lemma {:induction false} PositiveIsMonotone(x: real, y: real)
    requires 0.0 < x <= y
    ensures RoundPositive(x) <= RoundPositive(y)
    decreases if x < 1.0 then Room(x) else 0, y.Floor
  {
    if y < 1.0 {
      RoomShrinks(x);
      PositiveIsMonotone(2.0 * x, 2.0 * y);
    } else if x < 1.0 {
      UpToOne(x);
      FromOne(y);
    } else if x >= 2.0 {
      PositiveIsMonotone(x / 2.0, y / 2.0);
    } else if y >= 2.0 {
      StepBounds(x);
      FromOne(y / 2.0);
    } else {
      StepIsMonotone(x, y);
    }
  }

  lemma {:induction false} RoundPositiveIsPositive(x: real)
    requires x > 0.0
    ensures RoundPositive(x) > 0.0
  {
    if x < 1.0 {
      UpToOne(x);
    } else {
      FromOne(x);
    }
  }

  lemma RoundIsMonotone(x: real, y: real)
    requires x <= y
    ensures Round(x) <= Round(y)
  {
    if x > 0.0 {
      PositiveIsMonotone(x, y);
    } else if y < 0.0 {
      PositiveIsMonotone(-y, -x);
    } else {
      if x < 0.0 {
        RoundPositiveIsPositive(-x);
      }
      if y > 0.0 {
        RoundPositiveIsPositive(y);
      }
    }
  }

  /** A rounded number that is enlarged by one step in as many as it may have lost is no longer too small. */
  lemma {:induction false} EnlargedMakesUp(y: real, d: real, p: real)
    requires y > 0.0 && d == Round(y) && p >= d + d / 4503599627370496.0
    ensures Round(p) >= y
    decreases if y < 1.0 then 1 else 0, if y < 1.0 then Room(y) else y.Floor
  {
    RoundPositiveIsPositive(y);
    if y < 1.0 {
      RoomShrinks(y);
      RoundDoubles(y);
      EnlargedMakesUp(2.0 * y, 2.0 * d, 2.0 * p);
      RoundDoubles(p);
    } else if y >= 2.0 {
      RoundDoubles(y / 2.0);
      EnlargedMakesUp(y / 2.0, d / 2.0, p / 2.0);
      RoundDoubles(p / 2.0);
    } else {
      StepBounds(y);
      NextStep(y);
      var next := d + 1.0 / STEPS;
      RoundIsMonotone(if next <= 2.0 then next else 2.0, p);
    }
  }

  /** So is its rounded product with any number from the successor of one on. */
  lemma ProductMakesUp(y: real, d: real, c: real, p: real)
    requires y >= 0.0 && d == Round(y) && c >= 1.0 + 1.0 / STEPS && p == d * c
    ensures Round(p) >= y
  {
    if y > 0.0 {
      RoundPositiveIsPositive(y);
      EnlargedBy(d, c, p);
      EnlargedMakesUp(y, d, p);
    }
  }

  lemma EnlargedBy(d: real, c: real, p: real)
    requires d >= 0.0 && c >= 1.0 + 1.0 / STEPS && p == d * c
    ensures p >= d + d / 4503599627370496.0
  {
    var e := c - 1.0 - 1.0 / STEPS;
    TimesNonNegative(d, e);
    assert d * e == d * c - d - d / 4503599627370496.0;
  }

  lemma TimesNonNegative(x: real, y: real)
    requires x >= 0.0 && y >= 0.0
    ensures x * y >= 0.0
  {
  }

  /** Whole numbers of steps are kept. */
  lemma WholeSteps(n: int)
    ensures NearestStep(n as real / STEPS) == n as real / STEPS
  {
    assert n as real / STEPS * STEPS == n as real;
  }

  /** The number after a representable one below two is representable. */
  lemma NextStep(y: real)
    requires 1.0 <= y < 2.0
    ensures var next := RoundPositive(y) + 1.0 / STEPS;
            (next <= 2.0 ==> Representable(next)) && Representable(2.0)
  {
    var n := NearestInteger(y * STEPS);
    assert RoundPositive(y) == n as real / STEPS;
    assert RoundPositive(y) + 1.0 / STEPS == (n + 1) as real / STEPS;
    StepBounds(y);
    WholeSteps(n + 1);
    WholeSteps(4503599627370496);
  }

  /** There is no number between one and its successor. */
  lemma AboveOne(c: real)
    requires Representable(c) && c > 1.0
    ensures c >= 1.0 + 1.0 / STEPS
  {
    if c < 2.0 {
      var n := NearestInteger(c * STEPS);
      assert c * STEPS == n as real;
      assert n as real > STEPS;
      assert STEPS == 4503599627370496 as real;
      assert n >= 4503599627370497;
    }
  }

  lemma DoubleRepresentable(x: real)
    requires x > 0.0 && Representable(x)
    ensures Representable(2.0 * x)
  {
    RoundDoubles(x);
  }

  function Doubled(x: real, i: nat): real {
    if i == 0 then x else 2.0 * Doubled(x, i - 1)
  }

  lemma {:induction false} DoubledRepresentable(x: real, i: nat)
    requires x > 0.0 && Representable(x)
    ensures Doubled(x, i) > 0.0 && Representable(Doubled(x, i))
  {
    if i > 0 {
      DoubledRepresentable(x, i - 1);
      DoubleRepresentable(Doubled(x, i - 1));
    }
  }

  lemma {:induction false} DoubledAgain(x: real, i: nat, j: nat)
    ensures Doubled(x, i + j) == Doubled(Doubled(x, i), j)
  {
    if j > 0 {
      DoubledAgain(x, i, j - 1);
    }
  }

  lemma DoubledFour(x: real)
    ensures Doubled(x, 4) == 16.0 * x
  {
    assert Doubled(x, 1) == 2.0 * x;
    assert Doubled(x, 2) == 4.0 * x;
    assert Doubled(x, 3) == 8.0 * x;
  }

  lemma DoubledManyTimes(x: real)
    ensures Doubled(x, 23) == 8388608.0 * x
  {
    DoubledFour(x);
    DoubledAgain(x, 4, 4);
    DoubledFour(16.0 * x);
    DoubledAgain(x, 8, 8);
    DoubledAgain(256.0 * x, 4, 4);
    DoubledFour(256.0 * x);
    DoubledFour(4096.0 * x);
    DoubledAgain(x, 16, 4);
    DoubledFour(65536.0 * x);
    DoubledAgain(x, 20, 3);
    assert Doubled(1048576.0 * x, 1) == 2097152.0 * x && Doubled(1048576.0 * x, 2) == 4194304.0 * x;
  }

  lemma WholeRepresentable(n: int, x: real)
    requires x == n as real / STEPS && 1.0 <= x < 2.0
    ensures Representable(x)
  {
    WholeSteps(n);
  }

  /** 10^21 is a whole number of steps doubled 69 times. */
  lemma PowerOfTenRepresentable()
    ensures Representable(1000000000000000000000.0)
  {
    var x := 7629394531250000 as real / STEPS;
    WholeRepresentable(7629394531250000, x);
    DoubledRepresentable(x, 69);
    DoubledManyTimes(x);
    DoubledAgain(x, 23, 23);
    DoubledManyTimes(8388608.0 * x);
    DoubledAgain(x, 46, 23);
    DoubledManyTimes(70368744177664.0 * x);
  }
}
