/** Remainders of multiples, for divisors that are not constants. */
module Multiples {
  lemma MultipleModulo(a: int, n: int)
    requires a != 0
    ensures (a * n) % a == 0
  {
    var q, r := (a * n) / a, (a * n) % a;
    assert r == a * n - a * q == a * (n - q);
    SmallMultiple(a, n - q);
  }

  /** The only multiple of a from zero up to the absolute value of a is zero. */
  lemma SmallMultiple(a: int, k: int)
    requires 0 <= a * k < if a > 0 then a else -a
    ensures a * k == 0
  {
    if a > 0 {
      Grows(a, k);
    } else {
      Grows(-a, -k);
      SignsCancel(a, k);
    }
  }

  lemma SignsCancel(a: int, k: int)
    ensures (-a) * (-k) == a * k
  {
  }

  lemma {:induction false} Grows(size: int, times: int)
    requires size > 0
    ensures times > 0 ==> size * times >= size
    ensures times < 0 ==> size * times <= -size
    ensures times == 0 ==> size * times == 0
    decreases if times < 0 then -times else times
  {
    if times > 1 {
      Grows(size, times - 1);
    } else if times < -1 {
      Grows(size, times + 1);
    }
  }

  /** Adding the divisor keeps the remainder. */
  lemma AddDivisor(x: int, a: int)
    requires a > 0
    ensures (x + a) % a == x % a
  {
    var q, r, q', r' := x / a, x % a, (x + a) / a, (x + a) % a;
    assert a * (q' - q - 1) == r - r';
    Grows(a, q' - q - 1);
  }
}
