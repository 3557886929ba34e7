/** Integer arithmetic as C does it, and what the layouts need to know about it. */
module CArith {

  /** C's integer division by a positive divisor. */
  function TruncDiv(a: int, b: int): (q: int)
    requires b > 0
  {
    if a >= 0 then a / b else -(-a / b)
  }

  lemma TimesMonotone(a: int, b: int, k: nat)
    requires a <= b
    ensures a * k <= b * k && k * a <= k * b
  {
  }

  lemma DivBounds(a: nat, n: nat)
    requires n >= 1
    ensures a / n * n <= a < a / n * n + n
  {
  }

  lemma DivAtLeast(a: nat, m: nat, n: nat)
    requires n >= 1 && m * n <= a
    ensures m <= a / n
  {
    DivBounds(a, n);
    if m > a / n { TimesMonotone(a / n + 1, m, n); }
  }

  /** Division gives back a factor, and rounds towards zero. */
  lemma WholeUnits(unit: nat, n: nat)
    requires n > 0
    ensures TruncDiv(unit * n, n) == unit
  {
    DivAtLeast(unit * n, unit, n);
    DivBounds(unit * n, n);
    if unit * n / n > unit { TimesMonotone(unit + 1, unit * n / n, n); }
  }

  lemma TruncDivIs(a: int, b: int)
    requires b > 0
    ensures var r := a - TruncDiv(a, b) * b;
      -b < r < b && (a >= 0 ==> r >= 0 && TruncDiv(a, b) >= 0) && (a <= 0 ==> r <= 0 && TruncDiv(a, b) <= 0)
  {
    if a >= 0 {
      DivBounds(a, b);
    } else {
      DivBounds(-a, b);
      Negated(-a / b, b);
    }
  }

  lemma Negated(q: int, b: int)
    ensures -q * b == -(q * b)
  {
  }
}
