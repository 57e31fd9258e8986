/** Integers modulo m, and powers modulo powers of two. */
module Congruences {
  import opened Numbers

  predicate Times(a: int, b: int, k: int, m: int) { a - b == k * m }

  /** a and b differ by a multiple of m. */
  ghost predicate Congruent(a: int, b: int, m: int) { exists k :: Times(a, b, k, m) }

  lemma Same(a: int, m: int)
    ensures Congruent(a, a, m)
  {
    assert Times(a, a, 0, m);
  }

  lemma Sums(a: int, b: int, c: int, d: int, m: int)
    requires Congruent(a, b, m) && Congruent(c, d, m)
    ensures Congruent(a + c, b + d, m) && Congruent(a - c, b - d, m) && Congruent(-a, -b, m)
  {
    var k, j :| Times(a, b, k, m) && Times(c, d, j, m);
    assert Times(a + c, b + d, k + j, m);
    assert Times(a - c, b - d, k - j, m);
    assert Times(-a, -b, -k, m);
  }

  lemma Products(a: int, b: int, c: int, d: int, m: int)
    requires Congruent(a, b, m) && Congruent(c, d, m)
    ensures Congruent(a * c, b * d, m)
  {
    var k, j :| Times(a, b, k, m) && Times(c, d, j, m);
    assert a * c - b * d == (a - b) * c + b * (c - d);
    assert (k * m) * c == (k * c) * m && b * (j * m) == (b * j) * m;
    assert (k * c) * m + (b * j) * m == (k * c + b * j) * m;
    assert Times(a * c, b * d, k * c + b * j, m);
  }

  lemma {:induction false} Powers(a: int, b: int, n: nat, m: int)
    requires Congruent(a, b, m)
    ensures Congruent(Power(a, n), Power(b, n), m)
  {
    if n == 0 {
      Same(1, m);
    } else {
      Powers(a, b, n - 1, m);
      Products(a, b, Power(a, n - 1), Power(b, n - 1), m);
    }
  }

  lemma Remainder(a: int, m: int)
    requires m > 0
    ensures Congruent(a % m, a, m)
  {
    assert a == m * (a / m) + a % m;
    assert m * (a / m) == (a / m) * m;
    assert Times(a % m, a, -(a / m), m);
  }

  lemma Chained(a: int, b: int, c: int, m: int)
    requires Congruent(a, b, m) && Congruent(b, c, m)
    ensures Congruent(a, c, m)
  {
    var k, j :| Times(a, b, k, m) && Times(b, c, j, m);
    assert Times(a, c, k + j, m);
  }

  lemma {:induction false} PowersOfTwo(a: nat, b: nat)
    ensures Pow2(a + b) == Pow2(a) * Pow2(b)
  {
    if a > 0 { PowersOfTwo(a - 1, b); }
  }

  lemma Associate(a: int, p: int, q: int)
    ensures a * (p * q) == (a * p) * q
  {
  }

  lemma Divides(a: int, low: nat, high: nat)
    requires low <= high
    ensures Congruent(a * Pow2(high), 0, Pow2(low))
  {
    var p, q := Pow2(high - low), Pow2(low);
    PowersOfTwo(high - low, low);
    Associate(a, p, q);
    assert Times(a * Pow2(high), 0, a * p, q);
  }

  lemma CongruentLower(a: int, b: int, low: nat, high: nat)
    requires low <= high && Congruent(a, b, Pow2(high))
    ensures a % Pow2(low) == b % Pow2(low)
  {
    var m := Pow2(high);
    var k: int :| Times(a, b, k, m);
    var p, q := Pow2(high - low), Pow2(low);
    PowersOfTwo(high - low, low);
    Associate(k, p, q);
    SameRemainder(a, b, k * p, q);
  }

  lemma SameRemainder(a: int, b: int, k: int, m: int)
    requires m > 0 && a - b == k * m
    ensures a % m == b % m
  {
    var q, r := b / m, b % m;
    assert b == m * q + r;
    assert a == (q + k) * m + r by { assert (q + k) * m == q * m + k * m; }
    Unique(a, q + k, r, m);
  }

  lemma Multiples(d: int, m: int)
    requires m > 0
    ensures d >= 1 ==> d * m >= m
    ensures d <= -1 ==> d * m <= -m
  {
    if d >= 1 { assert (d - 1) * m >= 0; }
    if d <= -1 { assert (-1 - d) * m >= 0; }
  }

  lemma Unique(a: int, q: int, r: int, m: int)
    requires m > 0 && a == q * m + r && 0 <= r < m
    ensures a / m == q && a % m == r
  {
    var d := a / m - q;
    assert a == m * (a / m) + a % m;
    assert d * m == (a / m) * m - q * m;
    Multiples(d, m);
  }

  lemma Opposite(a: int, b: int, m: int)
    requires Congruent(a, b, m)
    ensures Congruent(b, a, m)
  {
    var k :| Times(a, b, k, m);
    assert Times(b, a, -k, m);
  }

  lemma ZeroRemainder(a: int, m: int)
    requires m > 0
    ensures Congruent(a, 0, m) <==> a % m == 0
  {
    Remainder(a, m);
    Opposite(a % m, a, m);
    if Congruent(a, 0, m) {
      var k :| Times(a, 0, k, m);
      Unique(a, k, 0, m);
    }
  }

  lemma OneIsNotZero(bits: nat)
    requires bits > 0
    ensures !Congruent(1, 0, Pow2(bits))
  {
    forall k ensures !Times(1, 0, k, Pow2(bits)) {
      Associate(k, 2, Pow2(bits - 1));
      assert k * Pow2(bits) == 2 * (k * Pow2(bits - 1));
    }
  }

  lemma {:induction false} Exceeds(n: nat)
    ensures Pow2(n) > n
  {
    if n > 0 { Exceeds(n - 1); }
  }

  lemma Distribute(a: int, b: int, c: int)
    ensures a * (b + c) == a * b + a * c
  {
  }

  lemma Commute(a: int, b: int)
    ensures a * b == b * a
  {
  }

  lemma NonNegative(a: int, b: int)
    requires a >= 0 && b >= 0
    ensures a * b >= 0
  {
  }

  /** A congruence holds modulo every smaller power of two too. */
  lemma SmallerModulus(a: int, b: int, low: nat, high: nat)
    requires low <= high && Congruent(a, b, Pow2(high))
    ensures Congruent(a, b, Pow2(low))
  {
    var m := Pow2(high);
    var k: int :| Times(a, b, k, m);
    PowersOfTwo(high - low, low);
    Associate(k, Pow2(high - low), Pow2(low));
    assert Times(a, b, k * Pow2(high - low), Pow2(low));
  }

  // ---------------------------------------------------------------- powers with congruent exponents

  lemma {:induction false} PowerAdds(a: int, m: nat, n: nat)
    ensures Power(a, m + n) == Power(a, m) * Power(a, n)
  {
    if m > 0 {
      PowerAdds(a, m - 1, n);
      Associate(a, Power(a, m - 1), Power(a, n));
    }
  }

  lemma OddProduct(a: int, b: int)
    requires a % 2 == 1 && b % 2 == 1
    ensures a * b % 2 == 1
  {
    var i, j := a / 2, b / 2;
    assert a * b == 2 * (2 * (i * j) + i + j) + 1 by {
      assert a == 2 * i + 1 && b == 2 * j + 1;
      assert (2 * i + 1) * (2 * j + 1) == 2 * i * (2 * j) + 2 * i + 2 * j + 1;
      assert 2 * i * (2 * j) == 4 * (i * j);
    }
  }

  lemma {:induction false} OddPowers(a: int, n: nat)
    requires a % 2 == 1
    ensures Power(a, n) % 2 == 1
  {
    if n > 0 {
      OddPowers(a, n - 1);
      OddProduct(a, Power(a, n - 1));
    }
  }

  /** An odd number to the power 2^n is 1 modulo 2^n, by squaring. */
  lemma {:induction false} OddCycle(a: int, n: nat)
    requires a % 2 == 1
    ensures Congruent(Power(a, Pow2(n)), 1, Pow2(n))
  {
    if n == 0 {
      assert Times(Power(a, 1), 1, Power(a, 1) - 1, 1);
    } else {
      OddCycle(a, n - 1);
      OddPowers(a, Pow2(n - 1));
      PowerAdds(a, Pow2(n - 1), Pow2(n - 1));
      SquareGainsATwo(Power(a, Pow2(n - 1)), Pow2(n - 1));
    }
  }

  lemma SquareGainsATwo(x: int, m: int)
    requires x % 2 == 1 && Congruent(x, 1, m)
    ensures Congruent(x * x, 1, 2 * m)
  {
    var k :| Times(x, 1, k, m);
    var h := (x + 1) / 2;
    Difference(x);
    Associate(k * m, 2, h);
    Rearranged(k, m, h);
    assert Times(x * x, 1, k * h, 2 * m);
  }

  lemma Difference(x: int)
    ensures x * x - 1 == (x - 1) * (x + 1)
  {
  }

  lemma Rearranged(k: int, m: int, h: int)
    ensures (k * m) * (2 * h) == (k * h) * (2 * m)
  {
  }

  lemma {:induction false} OddPeriod(a: int, r: nat, k: nat, n: nat)
    requires a % 2 == 1
    ensures 0 <= k * Pow2(n) && Congruent(Power(a, r + k * Pow2(n)), Power(a, r), Pow2(n))
  {
    if k == 0 {
      Same(Power(a, r), Pow2(n));
    } else {
      OddPeriod(a, r, k - 1, n);
      assert k * Pow2(n) == (k - 1) * Pow2(n) + Pow2(n);
      OddCycle(a, n);
      PowerAdds(a, r + (k - 1) * Pow2(n), Pow2(n));
      Products(Power(a, r + (k - 1) * Pow2(n)), Power(a, r), Power(a, Pow2(n)), 1, Pow2(n));
    }
  }

  lemma {:induction false} EvenPower(a: int, n: nat)
    requires a % 2 == 0
    ensures Congruent(Power(a, n), 0, Pow2(n))
  {
    if n == 0 {
      assert Times(1, 0, 1, 1);
    } else {
      EvenPower(a, n - 1);
      var k :| Times(Power(a, n - 1), 0, k, Pow2(n - 1));
      var h := a / 2;
      Rearranged(k, Pow2(n - 1), h);
      Commute(a, Power(a, n - 1));
      assert Times(Power(a, n), 0, k * h, Pow2(n));
    }
  }

  /** Exponents that differ by a multiple of 2^bits give the same power modulo 2^bits exactly when the base is odd,
      or the smaller exponent already leaves nothing. */
  lemma PowersAgreeExactly(a: int, r: nat, c: nat, bits: nat)
    requires r != c && Congruent(r, c, Pow2(bits))
    ensures Congruent(Power(a, r), Power(a, c), Pow2(bits))
       <==> a % 2 == 1 || Power(a, Min(r, c)) % Pow2(bits) == 0
  {
    if r < c {
      LargerExponent(a, r, c, bits);
      if Congruent(Power(a, r), Power(a, c), Pow2(bits)) { Opposite(Power(a, r), Power(a, c), Pow2(bits)); }
      if Congruent(Power(a, c), Power(a, r), Pow2(bits)) { Opposite(Power(a, c), Power(a, r), Pow2(bits)); }
    } else {
      Opposite(r, c, Pow2(bits));
      LargerExponent(a, c, r, bits);
    }
  }

  lemma Apart(small: int, large: int, bits: nat)
    requires small < large && Congruent(small, large, Pow2(bits))
    ensures exists k: int :: k >= 1 && large == small + k * Pow2(bits)
    ensures large >= small + Pow2(bits) && Pow2(bits) > bits
  {
    var j :| Times(small, large, j, Pow2(bits));
    Multiples(j, Pow2(bits));
    assert j <= -1 by {
      if j >= 0 { NonNegative(j, Pow2(bits)); }
    }
    assert large == small + (-j) * Pow2(bits);
    Exceeds(bits);
  }

  lemma LargerExponent(a: int, small: nat, large: nat, bits: nat)
    requires small < large && Congruent(small, large, Pow2(bits))
    ensures Congruent(Power(a, large), Power(a, small), Pow2(bits))
       <==> a % 2 == 1 || Power(a, small) % Pow2(bits) == 0
  {
    Apart(small, large, bits);
    if a % 2 == 1 {
      var k: int :| k >= 1 && large == small + k * Pow2(bits);
      OddPeriod(a, small, k, bits);
    } else {
      EvenPower(a, large);
      SmallerModulus(Power(a, large), 0, bits, large);
      SameAsZero(Power(a, large), Power(a, small), Pow2(bits));
    }
  }

  lemma SameAsZero(zero: int, x: int, m: int)
    requires m > 0 && Congruent(zero, 0, m)
    ensures Congruent(zero, x, m) <==> x % m == 0
    ensures Congruent(x, zero, m) <==> x % m == 0
  {
    ZeroRemainder(x, m);
    Opposite(zero, 0, m);
    if Congruent(zero, x, m) {
      Opposite(zero, x, m);
      Chained(x, zero, 0, m);
    }
    if Congruent(x, zero, m) { Chained(x, zero, 0, m); }
    if Congruent(x, 0, m) {
      Chained(x, 0, zero, m);
      Opposite(x, zero, m);
    }
  }
}
