/** Arithmetic that several modules share: extrema, powers, and the mixed-radix step. */
module Arithmetic {

  const U32_MAX: nat := 0xFFFF_FFFF
  const I32_MAX: nat := 0x7FFF_FFFF

  function Min(a: nat, b: nat): nat { if a <= b then a else b }

  function Max(a: nat, b: nat): nat { if a < b then b else a }

  function Power(base: nat, exponent: nat): nat {
    if exponent == 0 then 1 else Power(base, exponent - 1) * base
  }

  lemma {:induction false} PowerGrows(base: nat, m: nat, n: nat)
    requires base > 0 && m <= n
    ensures 0 < Power(base, m) <= Power(base, n)
    decreases n
  {
    if m < n {
      PowerGrows(base, m, n - 1);
      Scale(1, base, Power(base, n - 1));
    } else if m > 0 {
      PowerGrows(base, m - 1, n - 1);
      Scale(1, base, Power(base, m - 1));
    }
  }

  lemma {:induction false} Scale(a: nat, b: nat, c: nat)
    requires a <= b
    ensures a * c <= b * c && c * a <= c * b
    ensures a < b ==> a * c + c <= b * c
  {
    if c > 0 {
      Scale(a, b, c - 1);
      assert a * c == a * (c - 1) + a && b * c == b * (c - 1) + b;
    }
    assert c * a == a * c && c * b == b * c;
  }

  /** The one fact behind every mixed-radix step: digits and composed codes determine each other. */
  lemma Compose(high: nat, low: nat, radix: nat, limit: nat)
    requires high < limit && low < radix
    ensures high * radix + low < limit * radix
    ensures (high * radix + low) / radix == high && (high * radix + low) % radix == low
  {
    Scale(high, limit, radix);
    Quotient(high * radix + low, radix, high, low);
  }

  lemma Decompose(code: nat, radix: nat, limit: nat)
    requires code < limit * radix
    ensures radix > 0 && code / radix < limit && code % radix < radix && code / radix * radix + code % radix == code
  {
    Scale(0, radix, limit);
    var q := code / radix;
    assert code == q * radix + code % radix;
    if q >= limit {
      Scale(limit, q, radix);
    }
  }

  lemma Quotient(n: nat, radix: nat, high: nat, low: nat)
    requires n == high * radix + low && low < radix
    ensures n / radix == high && n % radix == low
  {
    var q, m := n / radix, n % radix;
    assert n == q * radix + m;
    if q < high {
      Scale(q, high, radix);
    } else if q > high {
      Scale(high, q, radix);
    }
  }

  lemma Associate(a: nat, b: nat, c: nat)
    ensures a * b * c == a * (b * c)
  {
  }

  lemma {:induction false} PowerAdd(base: nat, m: nat, n: nat)
    ensures Power(base, m + n) == Power(base, m) * Power(base, n)
  {
    if n > 0 {
      PowerAdd(base, m, n - 1);
      Associate(Power(base, m), Power(base, n - 1), base);
    }
  }
}
