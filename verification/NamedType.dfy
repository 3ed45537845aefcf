/** Conversion between integral units: a value times a ratio, rounded to the nearest unit. */
module NamedType {
  /** A unit as a multiple `num / den` of the base unit. */
  datatype Ratio = Ratio(num: nat, den: nat)

  predicate Positive(r: Ratio) {
    r.num > 0 && r.den > 0
  }

  const TWO64: nat := 0x1_0000_0000_0000_0000

  /** The factors of the conversion: a value is multiplied by the first and divided by the second. */
  function Up(target: Ratio, source: Ratio): nat {
    target.den * source.num
  }

  function Down(target: Ratio, source: Ratio): nat {
    target.num * source.den
  }

  /** The converting constructor on unbounded numbers. */
  function Convert(value: nat, target: Ratio, source: Ratio): nat
    requires Positive(target) && Positive(source)
  {
    Product(target.num, source.den);
    (value * Up(target, source) + Down(target, source) / 2) / Down(target, source)
  }

  lemma Product(a: nat, b: nat)
    requires a > 0 && b > 0
    ensures a * b > 0
  {
  }

  /** The same in 64-bit unsigned arithmetic, as the sizes of the ratios make it. */
  function Convert64(value: nat, target: Ratio, source: Ratio): nat
    requires Down(target, source) % TWO64 != 0
  {
    var up, down := Up(target, source) % TWO64, Down(target, source) % TWO64;
    (((value * up) % TWO64 + down / 2) % TWO64) / down
  }

  /** Without overflow the two agree. */
  lemma NoOverflow(value: nat, target: Ratio, source: Ratio)
    requires Positive(target) && Positive(source)
    requires target.den * source.num < TWO64 && target.num * source.den < TWO64
    requires value * (target.den * source.num) + (target.num * source.den) / 2 < TWO64
    ensures (target.num * source.den) % TWO64 != 0
    ensures Convert64(value, target, source) == Convert(value, target, source)
  {
    Product(target.num, source.den);
    Small(Up(target, source));
    Small(Down(target, source));
    var product := value * Up(target, source);
    assert product >= 0;
    Small(product);
    Small(product + Down(target, source) / 2);
  }

  lemma Small(x: nat)
    requires x < TWO64
    ensures x % TWO64 == x
  {
  }

  lemma Quotient(x: nat, d: nat)
    requires d > 0
    ensures d * (x / d) <= x < d * (x / d) + d
  {
  }

  /** Twice the error is at most one target unit; a value half way between two goes up. */
  lemma WithinHalf(value: nat, target: Ratio, source: Ratio)
    requires Positive(target) && Positive(source)
    ensures var exact, down := value * (target.den * source.num), target.num * source.den;
            var result := Convert(value, target, source);
            2 * exact - down < 2 * (result * down) <= 2 * exact + down
  {
    var exact, down := value * Up(target, source), Down(target, source);
    Product(target.num, source.den);
    Quotient(exact + down / 2, down);
    var result := Convert(value, target, source);
    assert result * down == down * ((exact + down / 2) / down);
  }

  lemma QuotientMonotone(x: nat, y: nat, d: nat)
    requires d > 0 && x <= y
    ensures x / d <= y / d
  {
    Quotient(x, d);
    Quotient(y, d);
    if x / d >= y / d + 1 {
      Scaled(d, x / d, y / d);
    }
  }

  lemma Scaled(d: nat, a: nat, b: nat)
    requires a >= b + 1
    ensures d * a >= d * b + d
  {
    var k := a - b - 1;
    assert d * k >= 0;
    assert d * a == d * (k + b + 1) == d * k + d * b + d;
  }

  lemma TimesMonotone(a: nat, b: nat, c: nat)
    requires a <= b
    ensures a * c <= b * c
  {
    var k := b - a;
    assert k * c >= 0;
    assert b * c == (a + k) * c == a * c + k * c;
  }

  lemma Monotone(a: nat, b: nat, target: Ratio, source: Ratio)
    requires Positive(target) && Positive(source) && a <= b
    ensures Convert(a, target, source) <= Convert(b, target, source)
  {
    var up, down := Up(target, source), Down(target, source);
    Product(target.num, source.den);
    TimesMonotone(a, b, up);
    var p, q := a * up, b * up;
    QuotientMonotone(p + down / 2, q + down / 2, down);
  }

  lemma DivideExactly(m: nat, d: nat, r: nat)
    requires r < d
    ensures (m * d + r) / d == m
  {
    Quotient(m * d + r, d);
    var q := (m * d + r) / d;
    if m >= q + 1 {
      Scaled(d, m, q);
    } else if q >= m + 1 {
      Scaled(d, q, m);
    }
  }

  /** Converting to a unit that divides the source unit `m` times and back is the identity. */
  lemma RoundTrip(value: nat, fine: Ratio, coarse: Ratio, m: nat)
    requires Positive(fine) && Positive(coarse)
    requires fine.den * coarse.num == m * (fine.num * coarse.den)
    ensures Convert(value, fine, coarse) == value * m
    ensures Convert(Convert(value, fine, coarse), coarse, fine) == value
  {
    var down := Down(fine, coarse);
    Product(fine.num, coarse.den);
    Product(fine.den, coarse.num);
    assert value * Up(fine, coarse) == (value * m) * down;
    DivideExactly(value * m, down, down / 2);
    assert Up(coarse, fine) == down && Down(coarse, fine) == m * down;
    assert (value * m) * down == value * (m * down);
    DivideExactly(value, m * down, (m * down) / 2);
  }
}
