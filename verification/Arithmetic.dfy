/** Division and remainder, from products: every other module's arithmetic rests on these lemmas. */
module Arithmetic {
  lemma {:induction false} TimesAtLeast(d: nat, b: nat)
    requires d >= 1
    ensures d * b >= b
  {
    if d > 1 {
      TimesAtLeast(d - 1, b);
      OneMore(d - 1, b);
    }
  }

  lemma OneMore(d: nat, b: nat)
    ensures (d + 1) * b == d * b + b
  {
  }

  lemma Distribute(d: int, q: int, b: int)
    ensures (d + q) * b == d * b + q * b
  {
  }

  lemma Division(a: nat, b: nat)
    requires b > 0
    ensures a == a / b * b + a % b && a % b < b
  {
  }

  /** A number written as a multiple and a rest has these as quotient and remainder. */
  lemma Quotient(a: nat, b: nat, q: nat, r: nat)
    requires r < b && a == q * b + r
    ensures a / b == q && a % b == r
  {
    Division(a, b);
    var p := a / b;
    if p > q {
      Distribute(p - q, q, b);
      TimesAtLeast(p - q, b);
    } else if p < q {
      Distribute(q - p, p, b);
      TimesAtLeast(q - p, b);
    }
  }

  lemma TimesGrows(a: nat, b: nat, c: nat, d: nat)
    requires a <= b && c <= d
    ensures a * c <= b * d
  {
    Distribute(b - a, a, c);
    Distribute(d - c, c, b);
    Signs(b - a, c);
    Signs(b, d - c);
    Commute(d, b);
    Commute(c, b);
    Commute(d - c, b);
  }

  lemma Signs(a: nat, b: nat)
    ensures a * b >= 0
  {
  }

  lemma Commute(a: int, b: int)
    ensures a * b == b * a
  {
  }

  /** The quotient is below n exactly if the number is below n times the divisor. */
  lemma QuotientBelow(a: nat, b: nat, n: nat)
    requires b > 0
    ensures a / b < n <==> a < n * b
  {
    Division(a, b);
    var q := a / b;
    if q < n {
      TimesGrows(q + 1, n, b, b);
      OneMore(q, b);
    } else {
      TimesGrows(n, q, b, b);
    }
  }

  /** Dividing in two steps. */
  lemma DivideTwice(a: nat, b: nat, c: nat)
    requires b > 0 && c > 0
    ensures b * c > 0 && a / b / c == a / (b * c)
  {
    TimesAtLeast(c, b);
    Commute(b, c);
    Division(a, b);
    Division(a / b, c);
    var q, r, t := a / b / c, a / b % c, a % b;
    TimesGrows(r, c - 1, b, b);
    Products(q, r, b, c);
    OneMore(c - 1, b);
    Quotient(a, b * c, q, r * b + t);
  }

  lemma Products(q: nat, r: nat, b: nat, c: nat)
    ensures (q * c + r) * b == q * (b * c) + r * b
  {
    Distribute(q * c, r, b);
    Associate(q, c, b);
    Commute(b, c);
  }

  lemma Associate(a: int, b: int, c: int)
    ensures a * b * c == a * (b * c)
  {
  }

  /** Adding a multiple of the divisor adds to the quotient and keeps the remainder. */
  lemma AddMultiple(a: nat, b: nat, k: nat)
    requires b > 0
    ensures (k * b + a) / b == k + a / b && (k * b + a) % b == a % b
  {
    Division(a, b);
    Distribute(k, a / b, b);
    Quotient(k * b + a, b, k + a / b, a % b);
  }
}
