/** The arc cotangent series and the pi computation (kernel/main.c:494-570) on big reals. */
module Arccot {
  import opened Common
  import opened BigReal

  /** Term `j` of the series for arccot(p), in units of the last digit, rounded down. */
  function Term(unit: int, p: int, j: nat): int
    requires p > 0
  {
    unit / (Power(p, 2 * j + 1) * (2 * j + 1))
  }

  /** The alternating sum of the first `terms` terms. */
  function Series(unit: int, p: int, terms: nat): int
    requires p > 0
  {
    if terms == 0 then 0
    else if terms % 2 == 1 then Series(unit, p, terms - 1) + Term(unit, p, terms - 1)
    else Series(unit, p, terms - 1) - Term(unit, p, terms - 1)
  }

  /** The sum of all the terms that count, for any large enough number of terms. */
  ghost predicate IsArccot(v: int, unit: int, p: int)
    requires p > 0
  {
    forall terms: nat {:trigger Series(unit, p, terms)} :: unit < Power(p, 2 * terms + 1) ==>
          v == Series(unit, p, terms)
  }

  // ---- Division

  /** Rounding down twice is rounding down once. */
  lemma DivTwice(a: int, b: int, c: int)
    requires 0 <= a && 0 < b && 0 < c
    ensures 0 < b * c && a / b / c == a / (b * c)
  {
    var q, r := a / b, a % b;
    var q', r' := q / c, q % c;
    NonNegative(b - 1, c - 1);
    assert a == q * b + r && q == q' * c + r';
    Regroup(b, c, q', r', r);
    NonNegative(c - 1 - r', b);
    NonNegative(r', b);
    Distribute(c - 1, r', b);
    Distribute(c, 1, b);
    Remainder(a, q', b * c, r' * b + r);
  }

  lemma Regroup(b: int, c: int, q: int, r: int, s: int)
    ensures (q * c + r) * b + s == q * (b * c) + (r * b + s)
  {
  }

  lemma DivSmaller(a: int, b: int, c: int)
    requires 0 <= a && 0 < b <= c
    ensures 0 <= a / c <= a / b
  {
    var q, q' := a / b, a / c;
    assert a == q * b + a % b && a == q' * c + a % c;
    if q' < 0 {
      NonNegative(-1 - q', c);
      Distribute(-1, q', c);
    }
    if q < q' {
      NonNegative(q', c - b);
      NonNegative(q' - q - 1, b);
      assert q' * c - q' * b == q' * (c - b);
      Distribute(q', q, b);
      Distribute(q' - q, 1, b);
    }
  }

  // ---- The series

  lemma NextPower(p: int, j: nat)
    requires p > 0
    ensures Power(p, 2 * j + 3) == Power(p, 2 * j + 1) * (p * p) && p * p > 0
  {
    var a := Power(p, 2 * j + 1);
    assert Power(p, 2 * j + 2) == a * p;
    assert a * p * p == a * (p * p);
    NonNegative(p - 1, p - 1);
  }

  /** The denominators grow, so the terms shrink. */
  lemma TermsShrink(unit: int, p: int, j: nat)
    requires p > 0 && unit >= 0
    ensures 0 <= Term(unit, p, j + 1) <= Term(unit, p, j)
  {
    NextPower(p, j);
    var a, k := Power(p, 2 * j + 1), 2 * j + 1;
    NonNegative(a - 1, k - 1);
    assert a * k == (a - 1) * (k - 1) + a + k - 1;
    NonNegative(a, p * p - 1);
    assert a * (p * p) == a + a * (p * p - 1);
    Grows(a, a * (p * p), k);
    DivSmaller(unit, a * k, a * (p * p) * (k + 2));
  }

  lemma Grows(a: int, a': int, k: int)
    requires 0 < a <= a' && 0 < k
    ensures a * k <= a' * (k + 2)
  {
    NonNegative(a' - a, k);
    Distribute(a', a, k);
    assert a' * (k + 2) == a' * k + 2 * a';
  }

  /** Partial sums of the alternating series stay between zero and the first term. */
  lemma {:induction false} SeriesBounds(unit: int, p: int, terms: nat)
    requires p > 0 && unit >= 0 && 1 <= terms
    ensures terms % 2 == 1 ==> Term(unit, p, terms - 1) <= Series(unit, p, terms) <= Term(unit, p, 0)
    ensures terms % 2 == 0 ==> 0 <= Series(unit, p, terms) <= Term(unit, p, 0) - Term(unit, p, terms - 1)
    ensures 0 <= Term(unit, p, terms)
  {
    TermsShrink(unit, p, terms - 1);
    if terms == 1 {
      assert Series(unit, p, 1) == Series(unit, p, 0) + Term(unit, p, 0);
    } else {
      SeriesBounds(unit, p, terms - 1);
      TermsShrink(unit, p, terms - 2);
    }
  }

  /** The first term, and the terms beyond the precision. */
  lemma FirstTerm(unit: int, p: int)
    requires p > 0
    ensures Term(unit, p, 0) == unit / p
  {
    assert Power(p, 1) == Power(p, 0) * p;
  }

  lemma TermIs(unit: int, p: int, j: nat)
    requires p > 0 && unit >= 0
    ensures Term(unit, p, j) == unit / Power(p, 2 * j + 1) / (2 * j + 1)
  {
    DivTwice(unit, Power(p, 2 * j + 1), 2 * j + 1);
  }

  lemma {:induction false} PowerGrows(p: int, k: nat, k': nat)
    requires p > 0 && k <= k'
    ensures Power(p, k) <= Power(p, k')
  {
    if k < k' {
      PowerGrows(p, k, k' - 1);
      NonNegative(Power(p, k' - 1), p - 1);
      assert Power(p, k' - 1) * p == Power(p, k' - 1) + Power(p, k' - 1) * (p - 1);
    }
  }

  lemma ZeroTerm(unit: int, p: int, j: nat)
    requires p > 0 && 0 <= unit < Power(p, 2 * j + 1)
    ensures Term(unit, p, j) == 0
  {
    TermIs(unit, p, j);
    Remainder(unit, 0, Power(p, 2 * j + 1), unit);
  }

  /** Once the powers exceed the unit, no more terms count: the sum no longer changes. */
  lemma {:induction false} SeriesSettles(unit: int, p: int, j: nat, terms: nat)
    requires p > 0 && 0 <= unit < Power(p, 2 * j + 1) && j <= terms
    ensures Series(unit, p, terms) == Series(unit, p, j)
  {
    if j < terms {
      SeriesSettles(unit, p, j, terms - 1);
      PowerGrows(p, 2 * j + 1, 2 * (terms - 1) + 1);
      ZeroTerm(unit, p, terms - 1);
    }
  }

  lemma SettlesFrom(unit: int, p: int, j: nat, terms: nat)
    requires p > 0 && 0 <= unit < Power(p, 2 * j + 1) && unit < Power(p, 2 * terms + 1)
    ensures Series(unit, p, terms) == Series(unit, p, j)
  {
    if j <= terms {
      SeriesSettles(unit, p, j, terms);
    } else {
      SeriesSettles(unit, p, terms, j);
    }
  }

  // ---- The divisor k stays small

  lemma {:induction false} PowerOfTwo(k: nat)
    ensures Power(BASE, k) <= Power(2, 14 * k)
  {
    if k > 0 {
      PowerOfTwo(k - 1);
      Fourteen(14 * (k - 1));
      assert Power(2, 14 * k) == Power(2, 14 * (k - 1)) * 16384;
    }
  }

  lemma Fourteen(k: nat)
    ensures Power(2, k + 14) == Power(2, k) * 16384
  {
    assert Power(2, k + 2) == Power(2, k) * 4;
    assert Power(2, k + 4) == Power(2, k + 2) * 4;
    assert Power(2, k + 6) == Power(2, k + 4) * 4;
    assert Power(2, k + 8) == Power(2, k + 6) * 4;
    assert Power(2, k + 10) == Power(2, k + 8) * 4;
    assert Power(2, k + 12) == Power(2, k + 10) * 4;
    assert Power(2, k + 14) == Power(2, k + 12) * 4;
  }

  lemma {:induction false} LargerBase(p: int, k: nat)
    requires p >= 2
    ensures Power(2, k) <= Power(p, k)
  {
    if k > 0 {
      LargerBase(p, k - 1);
      var a, b := Power(2, k - 1), Power(p, k - 1);
      NonNegative(b, p - 2);
      assert b * p == b * 2 + b * (p - 2);
    }
  }

  lemma {:induction false} TwoGrows(k: nat, k': nat)
    requires k < k'
    ensures Power(2, k) < Power(2, k')
  {
    if k + 1 < k' {
      TwoGrows(k, k' - 1);
    }
  }

  /** While the loop of arccot runs, its divisor is below 14 times the number of digits. */
  lemma SmallDivisor(p: int, n: nat, j: nat)
    requires p >= 2 && 1 <= n && Power(p, 2 * j + 1) <= Power(BASE, n - 1)
    ensures 2 * j + 1 <= 14 * (n - 1)
  {
    LargerBase(p, 2 * j + 1);
    PowerOfTwo(n - 1);
    if 2 * j + 1 > 14 * (n - 1) {
      TwoGrows(14 * (n - 1), 2 * j + 1);
    }
  }

  // ---- arccot

  /** u = u/(p*p): one division for small p, two for large p, with the same result
      (kernel/main.c:509-514). */
  method DivSquare(u: array<int32>, p: int32)
    requires Digits(u[..]) && 2 <= p <= 46340
    modifies u
    ensures Digits(u[..]) && Value(u[..]) == old(Value(u[..])) / (p as int * p as int)
  {
    ghost var v := Value(u[..]);
    ValueBound(u[..]);
    Square(p as int);
    var p2 := p * p;
    if p < MAX_DIV {
      Div(u, p2, u);
    } else {
      Div(u, p, u);
      Div(u, p, u);
      DivTwice(v, p as int, p as int);
    }
  }

  /** 46340 is the largest number whose square fits in 32 bits. */
  lemma Square(p: int)
    requires 2 <= p
    ensures p * p >= 4
    ensures p < 450 ==> p * p <= 202500
    ensures p <= 46340 <==> p * p < 0x8000_0000
  {
    NonNegative(p - 2, p - 2);
    assert (p - 2) * (p - 2) == p * p - 4 * p + 4;
    if p < 450 {
      NonNegative(450 - p, 450 + p);
      assert (450 - p) * (450 + p) == 202500 - p * p;
    }
    if p > 46340 {
      NonNegative(p - 46341, p + 46341);
      assert (p - 46341) * (p + 46341) == p * p - 2147488281;
    } else {
      NonNegative(46340 - p, 46340 + p);
      assert (46340 - p) * (46340 + p) == 2147395600 - p * p;
    }
  }

  /** x += v or x -= v, when neither carries out of the top digit nor borrows below zero. */
  method AddOrSub(x: array<int32>, v: array<int32>, add: bool)
    requires x != v && x.Length == v.Length && Digits(x[..]) && Digits(v[..])
    requires add ==> Value(x[..]) + Value(v[..]) < Power(BASE, x.Length)
    requires !add ==> Value(v[..]) <= Value(x[..])
    modifies x
    ensures Digits(x[..])
    ensures Value(x[..]) == if add then old(Value(x[..])) + Value(v[..]) else old(Value(x[..])) - Value(v[..])
  {
    ghost var a, b := Value(x[..]), Value(v[..]);
    ValueBound(x[..]);
    ValueBound(v[..]);
    if add {
      Add(x, v);
      Remainder(a + b, 0, Power(BASE, x.Length), a + b);
    } else {
      Sub(x, v);
    }
  }

  /** The next sum neither carries out of the top digit nor borrows below zero. */
  lemma SumFits(p: int, n: nat, j: nat)
    requires p >= 2 && 1 <= n
    ensures var unit := Power(BASE, n - 1);
            var x, v := Series(unit, p, j + 1), Term(unit, p, j + 1);
            (j % 2 == 0 ==> v <= x) && (j % 2 == 1 ==> x + v < Power(BASE, n))
  {
    var unit := Power(BASE, n - 1);
    SeriesBounds(unit, p, j + 1);
    TermsShrink(unit, p, j);
    FirstTerm(unit, p);
    DivSmaller(unit, 1, p);
    assert Power(BASE, n) == unit * BASE;
  }

  /** x = uk = 1/p (kernel/main.c:503-506). */
  method Start(p: int32, x: array<int32>, uk: array<int32>)
    requires 2 <= p <= MAX_DIV * MAX_DIV && x != uk && 1 <= x.Length == uk.Length
    modifies x, uk
    ensures Digits(x[..]) && Digits(uk[..])
    ensures var unit := Power(BASE, x.Length - 1);
            Value(uk[..]) == unit / Power(p as int, 1) && Value(x[..]) == Series(unit, p as int, 1)
  {
    ghost var unit, q := Power(BASE, x.Length - 1), p as int;
    SetToInteger(x, 0);
    SetToInteger(uk, 1);
    Div(uk, p, uk);
    FirstTerm(unit, q);
    assert Power(q, 1) == Power(q, 0) * q;
    assert Series(unit, q, 1) == Series(unit, q, 0) + Term(unit, q, 0);
    DivSmaller(unit, 1, q);
    assert Power(BASE, x.Length) == unit * BASE;
    AddOrSub(x, uk, true);
  }

  /** As long as the quotient is not zero, the divisor of the next term is small enough. */
  lemma Running(p: int, n: nat, j: nat)
    requires p >= 2 && 1 <= n && Power(BASE, n - 1) / Power(p, 2 * j + 1) != 0
    ensures 2 * j + 1 <= 14 * (n - 1)
  {
    var unit, d := Power(BASE, n - 1), Power(p, 2 * j + 1);
    if unit < d {
      Remainder(unit, 0, d, unit);
    }
    SmallDivisor(p, n, j);
  }

  lemma Shrinks(u: int, d: int)
    requires u > 0 && d >= 2
    ensures 0 <= u / d < u
  {
    DivSmaller(u, 2, d);
  }

  lemma NextQuotient(unit: int, p: int, j: nat)
    requires p >= 2 && unit >= 0
    ensures p * p > 0 && unit / Power(p, 2 * j + 1) / (p * p) == unit / Power(p, 2 * j + 3)
  {
    NextPower(p, j);
    DivTwice(unit, Power(p, 2 * j + 1), p * p);
  }

  /** One round of the loop (kernel/main.c:509-521). */
  method Round(p: int32, k: int32, sign: bool, x: array<int32>, uk: array<int32>, vk: array<int32>, ghost j: nat)
    requires 2 <= p <= 46340 && k as int == 2 * j + 3 && k <= MAX_DIV * MAX_DIV
    requires x != uk && x != vk && uk != vk && 1 <= x.Length == uk.Length == vk.Length
    requires Digits(x[..]) && Digits(uk[..]) && sign == (j % 2 == 1)
    requires Value(uk[..]) == Power(BASE, x.Length - 1) / Power(p as int, 2 * j + 1)
    requires Value(x[..]) == Series(Power(BASE, x.Length - 1), p as int, j + 1)
    modifies x, uk, vk
    ensures Digits(x[..]) && Digits(uk[..])
    ensures Value(uk[..]) == Power(BASE, x.Length - 1) / Power(p as int, 2 * j + 3)
    ensures Value(x[..]) == Series(Power(BASE, x.Length - 1), p as int, j + 2)
  {
    ghost var unit, q := Power(BASE, x.Length - 1), p as int;
    NextQuotient(unit, q, j);
    TermIs(unit, q, j + 1);
    SumFits(q, x.Length, j);
    DivSquare(uk, p);
    assert Value(uk[..]) == unit / Power(q, 2 * j + 3);
    Div(uk, k, vk);
    assert Value(vk[..]) == Term(unit, q, j + 1);
    AddOrSub(x, vk, sign);
  }

  /** When the quotient is zero, the sum is complete. */
  lemma Finished(unit: int, p: int, j: nat)
    requires p >= 2 && unit >= 0 && unit / Power(p, 2 * j + 1) == 0
    ensures IsArccot(Series(unit, p, j + 1), unit, p)
  {
    var d := Power(p, 2 * j + 1);
    assert unit == unit / d * d + unit % d;
    PowerGrows(p, 2 * j + 1, 2 * (j + 1) + 1);
    forall terms: nat {:trigger Series(unit, p, terms)} | unit < Power(p, 2 * terms + 1)
      ensures Series(unit, p, j + 1) == Series(unit, p, terms)
    {
      SettlesFrom(unit, p, j + 1, terms);
    }
  }

  lemma Parity(j: nat)
    ensures (j + 1) % 2 == 1 <==> j % 2 == 0
  {
  }

  /** Leaves in x the arc cotangent of p: the whole sum of the rounded terms, none of which is
      missing. The divisor k stays within the limit of Div when 14 * (n - 1) + 2 does. */
  method ComputeArccot(p: int32, x: array<int32>, uk: array<int32>, vk: array<int32>)
    requires 2 <= p <= 46340
    requires x != uk && x != vk && uk != vk && 1 <= x.Length == uk.Length == vk.Length
    requires 14 * (x.Length - 1) + 2 <= MAX_DIV as int * MAX_DIV as int
    modifies x, uk, vk
    ensures Digits(x[..])
    ensures IsArccot(Value(x[..]), Power(BASE, x.Length - 1), p as int)
  {
    ghost var unit, q := Power(BASE, x.Length - 1), p as int;
    Square(q);
    var k: int32, sign := 3, false;
    Start(p, x, uk);
    ghost var j := 0;
    var zero := IsZero(uk);
    while !zero
      invariant Digits(x[..]) && Digits(uk[..])
      invariant k as int == 2 * j + 3 && sign == (j % 2 == 1) && 2 * j + 1 <= 14 * (x.Length - 1) + 2
      invariant Value(uk[..]) == unit / Power(q, 2 * j + 1) && (zero <==> Value(uk[..]) == 0)
      invariant Value(x[..]) == Series(unit, q, j + 1)
      decreases Value(uk[..])
    {
      ValueBound(uk[..]);
      Running(q, x.Length, j);
      NextQuotient(unit, q, j);
      Shrinks(Value(uk[..]), q * q);
      Round(p, k, sign, x, uk, vk, j);
      Parity(j);
      j := j + 1;
      k := k + 2;
      sign := !sign;
      zero := IsZero(uk);
    }
    ghost var v := Value(x[..]);
    Finished(unit, q, j);
    assert IsArccot(v, unit, q);
  }

  // ---- How far the result is from the arc cotangent

  /** The alternating sum of the first `terms` values of `t`. */
  ghost function Alternating(t: nat -> real, terms: nat): real
  {
    if terms == 0 then 0.0
    else if terms % 2 == 1 then Alternating(t, terms - 1) + t(terms - 1)
    else Alternating(t, terms - 1) - t(terms - 1)
  }

  ghost predicate Decreases(t: nat -> real, j: nat) { 0.0 <= t(j + 1) <= t(j) }

  /** What is left of an alternating series after `j` terms has the sign of the next term and is
      no larger. */
  lemma {:induction false} TailBound(t: nat -> real, j: nat, m: nat)
    requires j < m && forall i: nat :: Decreases(t, i)
    ensures var e := if j % 2 == 0 then Alternating(t, m) - Alternating(t, j)
              else Alternating(t, j) - Alternating(t, m);
            && ((m - j) % 2 == 1 ==> t(m - 1) <= e <= t(j))
            && ((m - j) % 2 == 0 ==> 0.0 <= e <= t(j) - t(m - 1))
  {
    if m > j + 1 {
      TailBound(t, j, m - 1);
      assert Decreases(t, m - 2);
    }
  }

  ghost predicate Rounds(t: nat -> real, f: nat -> real, j: nat) { t(j) - 1.0 < f(j) <= t(j) }

  /** Each rounded term costs at most one unit. */
  lemma {:induction false} RoundingError(t: nat -> real, f: nat -> real, terms: nat)
    requires forall j: nat :: Rounds(t, f, j)
    ensures -(terms as real) <= Alternating(f, terms) - Alternating(t, terms) <= terms as real
  {
    if terms > 0 {
      RoundingError(t, f, terms - 1);
      assert Rounds(t, f, terms - 1);
    }
  }

  lemma AccuracyOf(t: nat -> real, f: nat -> real, terms: nat, m: nat)
    requires terms <= m && t(terms) <= 1.0
    requires (forall j: nat :: Rounds(t, f, j)) && forall i: nat :: Decreases(t, i)
    ensures -(terms as real) - 1.0 <= Alternating(f, terms) - Alternating(t, m) <= terms as real + 1.0
  {
    RoundingError(t, f, terms);
    if terms < m {
      TailBound(t, terms, m);
      assert Decreases(t, m - 1);
    }
  }

  /** The terms of the series in units of the last digit, without rounding; their alternating
      sums tend to `unit` times the arc cotangent of p. */
  ghost function ExactTerms(unit: int, p: int): nat -> real
    requires p > 0
  {
    (j: nat) => unit as real / (Power(p, 2 * j + 1) * Odd(j)) as real
  }

  ghost function RoundedTerms(unit: int, p: int): nat -> real
    requires p > 0
  {
    (j: nat) => Term(unit, p, j) as real
  }

  function Odd(j: nat): (k: int)
    ensures k > 0
  {
    2 * j + 1
  }

  lemma {:induction false} SeriesAlternates(unit: int, p: int, terms: nat)
    requires p > 0
    ensures Series(unit, p, terms) as real == Alternating(RoundedTerms(unit, p), terms)
  {
    if terms > 0 {
      SeriesAlternates(unit, p, terms - 1);
    }
  }

  lemma Denominator(p: int, j: nat)
    requires p > 0
    ensures 0 < Power(p, 2 * j + 1) <= Power(p, 2 * j + 1) * (2 * j + 1) <= Power(p, 2 * j + 3) * (2 * j + 3)
  {
    NextPower(p, j);
    var a, k := Power(p, 2 * j + 1), 2 * j + 1;
    NonNegative(a, k - 1);
    assert a * k == a + a * (k - 1);
    NonNegative(a, p * p - 1);
    assert a * (p * p) == a + a * (p * p - 1);
    Grows(a, a * (p * p), k);
  }

  lemma Quotients(u: real, x: real, y: real)
    requires 0.0 <= u && 0.0 < x <= y
    ensures 0.0 <= u / y <= u / x
  {
    assert u / x - u / y == u * (y - x) / (x * y);
  }

  lemma ExactDecreases(unit: int, p: int, j: nat)
    requires p > 0 && unit >= 0
    ensures Decreases(ExactTerms(unit, p), j)
  {
    Denominator(p, j);
    Quotients(unit as real, (Power(p, 2 * j + 1) * (2 * j + 1)) as real, (Power(p, 2 * j + 3) * (2 * j + 3)) as real);
  }

  lemma FloorError(a: int, b: int)
    requires 0 <= a && 0 < b
    ensures a as real / b as real - 1.0 < (a / b) as real <= a as real / b as real
  {
    var q, r := a / b, a % b;
    assert a == q * b + r;
    var x := b as real;
    assert a as real == q as real * x + r as real;
    assert a as real / x == q as real + r as real / x;
    assert 0.0 <= r as real / x < 1.0;
  }

  lemma TermRounds(unit: int, p: int, j: nat)
    requires p > 0 && unit >= 0
    ensures Rounds(ExactTerms(unit, p), RoundedTerms(unit, p), j)
  {
    Denominator(p, j);
    FloorError(unit, Power(p, 2 * j + 1) * (2 * j + 1));
  }

  lemma BeyondPrecision(unit: int, p: int, j: nat)
    requires p > 0 && 0 <= unit < Power(p, 2 * j + 1)
    ensures ExactTerms(unit, p)(j) <= 1.0
  {
    Denominator(p, j);
    Below(unit as real, (Power(p, 2 * j + 1) * (2 * j + 1)) as real);
  }

  lemma Below(u: real, x: real)
    requires 0.0 <= u <= x && 0.0 < x
    ensures u / x <= 1.0
  {
  }

  /** With `terms` terms in the sum, the result of arccot is within `terms` + 1 units of the last
      digit of every longer exact partial sum, so also of their limit. */
  lemma Accuracy(unit: int, p: int, terms: nat, m: nat)
    requires p > 0 && 0 <= unit < Power(p, 2 * terms + 1) && terms <= m
    ensures var error := Series(unit, p, terms) as real - Alternating(ExactTerms(unit, p), m);
            -(terms as real) - 1.0 <= error <= terms as real + 1.0
  {
    var t, f := ExactTerms(unit, p), RoundedTerms(unit, p);
    forall j: nat {:trigger Decreases(t, j)} ensures Decreases(t, j) {
      ExactDecreases(unit, p, j);
    }
    forall j: nat {:trigger Rounds(t, f, j)} ensures Rounds(t, f, j) {
      TermRounds(unit, p, j);
    }
    BeyondPrecision(unit, p, terms);
    SeriesAlternates(unit, p, terms);
    AccuracyOf(t, f, terms, m);
  }

  // ---- compute_pi_task

  lemma {:induction false} PowerIsLarge(p: int, k: nat)
    requires p >= 2
    ensures k < Power(p, k)
  {
    if k > 0 {
      PowerIsLarge(p, k - 1);
      NonNegative(Power(p, k - 1), p - 2);
      assert Power(p, k - 1) * p == Power(p, k - 1) * 2 + Power(p, k - 1) * (p - 2);
    }
  }

  lemma {:induction false} SeriesAbove(unit: int, p: int, terms: nat)
    requires p > 0 && unit >= 0 && 1 <= terms
    ensures Series(unit, p, terms) >= Term(unit, p, 0) - Term(unit, p, 1)
  {
    if terms <= 2 {
      TwoTerms(unit, p);
    } else if terms % 2 == 1 {
      SeriesAbove(unit, p, terms - 1);
      TermsShrink(unit, p, terms - 2);
    } else {
      SeriesAbove(unit, p, terms - 2);
      TwoMoreTerms(unit, p, terms);
    }
  }

  lemma TwoTerms(unit: int, p: int)
    requires p > 0 && unit >= 0
    ensures Series(unit, p, 1) == Term(unit, p, 0) >= Term(unit, p, 0) - Term(unit, p, 1) == Series(unit, p, 2)
  {
    TermsShrink(unit, p, 0);
    assert Series(unit, p, 1) == Series(unit, p, 0) + Term(unit, p, 0);
    assert Series(unit, p, 2) == Series(unit, p, 1) - Term(unit, p, 1);
  }

  lemma TwoMoreTerms(unit: int, p: int, terms: nat)
    requires p > 0 && unit >= 0 && 2 < terms && terms % 2 == 0
    ensures Series(unit, p, terms) >= Series(unit, p, terms - 2)
  {
    TermsShrink(unit, p, terms - 2);
    assert Series(unit, p, terms) == Series(unit, p, terms - 1) - Term(unit, p, terms - 1);
  }

  lemma ArccotBounds(v: int, unit: int, p: int)
    requires p >= 2 && unit > 0 && IsArccot(v, unit, p)
    ensures 0 <= v <= unit / p && unit / p - unit / (p * p * p * 3) <= v
  {
    PowerIsLarge(p, 2 * unit + 1);
    assert v == Series(unit, p, unit);
    SeriesBounds(unit, p, unit);
    SeriesAbove(unit, p, unit);
    TermsShrink(unit, p, unit - 1);
    FirstTerm(unit, p);
    assert Power(p, 3) == Power(p, 2) * p && Power(p, 2) == Power(p, 1) * p && Power(p, 1) == Power(p, 0) * p;
  }

  /** The sum of the three arc cotangents is not negative and leaves room for the factor 4. */
  lemma PiFits(unit: int, a: int, b: int, c: int)
    requires unit > 0 && IsArccot(a, unit, 18) && IsArccot(b, unit, 57) && IsArccot(c, unit, 239)
    ensures 0 <= a <= unit && 0 <= b <= unit && 0 <= c <= unit && 5 * c <= 12 * a + 8 * b
    ensures 4 * (12 * a + 8 * b - 5 * c) < unit * BASE
  {
    ArccotBounds(a, unit, 18);
    ArccotBounds(b, unit, 57);
    ArccotBounds(c, unit, 239);
  }

  /** x = arccot(p) * q. */
  method Scaled(p: int32, q: int32, x: array<int32>, u: array<int32>, v: array<int32>) returns (ghost a: int)
    requires 18 <= p <= 239 && 1 <= q <= 12
    requires x != u && x != v && u != v && 1 <= x.Length == u.Length == v.Length
    requires 14 * (x.Length - 1) + 2 <= MAX_DIV as int * MAX_DIV as int
    modifies x, u, v
    ensures Digits(x[..]) && IsArccot(a, Power(BASE, x.Length - 1), p as int) && Value(x[..]) == a * q as int
  {
    Square(p as int);
    ComputeArccot(p, x, u, v);
    a := Value(x[..]);
    ghost var unit := Power(BASE, x.Length - 1);
    ArccotBounds(a, unit, p as int);
    DivSmaller(unit, 18, p as int);
    Mul(x, q);
    Fits(a, q as int, unit);
    Remainder(a * q as int, 0, Power(BASE, x.Length), a * q as int);
  }

  lemma Fits(a: int, q: int, unit: int)
    requires 0 <= a <= unit / 18 && 1 <= q <= 12 && unit > 0
    ensures 0 <= a * q < unit * BASE
  {
    NonNegative(a, q);
    NonNegative(a, 12 - q);
    assert a * (12 - q) == a * 12 - a * q;
  }

  /** pi/4 is 12 arccot 18 + 8 arccot 57 - 5 arccot 239: no sum carries out of the array or goes
      below zero. */
  method ComputePi(pi: array<int32>, arctan: array<int32>, buffer1: array<int32>, buffer2: array<int32>)
    returns (ghost a: int, ghost b: int, ghost c: int)
    requires pi != arctan && pi != buffer1 && pi != buffer2 && arctan != buffer1 && arctan != buffer2 &&
              buffer1 != buffer2
    requires 1 <= pi.Length == arctan.Length == buffer1.Length == buffer2.Length
    requires 14 * (pi.Length - 1) + 2 <= MAX_DIV as int * MAX_DIV as int
    modifies pi, arctan, buffer1, buffer2
    ensures var unit := Power(BASE, pi.Length - 1);
            IsArccot(a, unit, 18) && IsArccot(b, unit, 57) && IsArccot(c, unit, 239)
    ensures Digits(pi[..]) && Value(pi[..]) == 4 * (12 * a + 8 * b - 5 * c)
  {
    ghost var unit := Power(BASE, pi.Length - 1);
    assert Power(BASE, pi.Length) == unit * BASE;
    SetToInteger(pi, 0);
    a := Scaled(18, 12, arctan, buffer1, buffer2);
    ArccotBounds(a, unit, 18);
    AddOrSub(pi, arctan, true);
    b := Scaled(57, 8, arctan, buffer1, buffer2);
    ArccotBounds(b, unit, 57);
    AddOrSub(pi, arctan, true);
    c := Scaled(239, 5, arctan, buffer1, buffer2);
    PiFits(unit, a, b, c);
    AddOrSub(pi, arctan, false);
    ghost var sum := Value(pi[..]);
    Mul(pi, 4);
    Remainder(sum * 4, 0, Power(BASE, pi.Length), sum * 4);
  }

  lemma {:induction false} BaseGrows(p: int, q: int, k: nat)
    requires 0 < p <= q
    ensures Power(p, k) <= Power(q, k)
  {
    if k > 0 {
      BaseGrows(p, q, k - 1);
      var a, b := Power(p, k - 1), Power(q, k - 1);
      NonNegative(b, q - p);
      NonNegative(b - a, p);
      Distribute(b, a, p);
      assert b * q == b * p + b * (q - p);
    }
  }

  /** What the sum of the three series is without rounding, in units of the last digit. */
  ghost function ExactPi(unit: int, m: nat): real
  {
    4.0 * (12.0 * Alternating(ExactTerms(unit, 18), m) + 8.0 * Alternating(ExactTerms(unit, 57), m)
           - 5.0 * Alternating(ExactTerms(unit, 239), m))
  }

  /** The computed pi is within 100 * (terms + 1) units of the last digit of every longer exact
      partial sum, so also of their limit. */
  lemma PiAccuracy(unit: int, a: int, b: int, c: int, terms: nat, m: nat)
    requires unit > 0 && IsArccot(a, unit, 18) && IsArccot(b, unit, 57) && IsArccot(c, unit, 239)
    requires unit < Power(18, 2 * terms + 1) && terms <= m
    ensures var error := (4 * (12 * a + 8 * b - 5 * c)) as real - ExactPi(unit, m);
            -(100.0 * (terms as real + 1.0)) <= error <= 100.0 * (terms as real + 1.0)
  {
    BaseGrows(18, 57, 2 * terms + 1);
    BaseGrows(18, 239, 2 * terms + 1);
    Accuracy(unit, 18, terms, m);
    Accuracy(unit, 57, terms, m);
    Accuracy(unit, 239, terms, m);
    assert a == Series(unit, 18, terms) && b == Series(unit, 57, terms) && c == Series(unit, 239, terms);
    var x, y, z :=
      Alternating(ExactTerms(unit, 18), m), Alternating(ExactTerms(unit, 57), m), Alternating(ExactTerms(unit, 239), m);
    Weighted(a as real, b as real, c as real, x, y, z, terms as real + 1.0);
    assert (4 * (12 * a + 8 * b - 5 * c)) as real == 4.0 * (12.0 * a as real + 8.0 * b as real - 5.0 * c as real);
  }

  lemma Weighted(a: real, b: real, c: real, x: real, y: real, z: real, e: real)
    requires -e <= a - x <= e && -e <= b - y <= e && -e <= c - z <= e
    ensures var error := 4.0 * (12.0 * a + 8.0 * b - 5.0 * c) - 4.0 * (12.0 * x + 8.0 * y - 5.0 * z);
            -(100.0 * e) <= error <= 100.0 * e
  {
  }

  // ---- Why that sum is pi/4

  /** A Gaussian integer. The argument of p + i is arccot p, and arguments add up in a product. */
  datatype Gauss = Gauss(re: int, im: int)

  function Times(x: Gauss, y: Gauss): Gauss { Gauss(x.re * y.re - x.im * y.im, x.re * y.im + x.im * y.re) }

  function Raised(x: Gauss, k: nat): Gauss { if k == 0 then Gauss(1, 0) else Times(x, Raised(x, k - 1)) }

  lemma TimesAssociates(x: Gauss, y: Gauss, z: Gauss)
    ensures Times(Times(x, y), z) == Times(x, Times(y, z))
  {
  }

  lemma {:induction false} RaisedSum(x: Gauss, j: nat, k: nat)
    ensures Raised(x, j + k) == Times(Raised(x, j), Raised(x, k))
  {
    if j > 0 {
      RaisedSum(x, j - 1, k);
      TimesAssociates(x, Raised(x, j - 1), Raised(x, k));
    }
  }

  /** The power `k` of `x` is `re` + `im` i. */
  ghost predicate IsPower(x: Gauss, k: nat, re: int, im: int)
  {
    forall i {:trigger Unfold(i)} :: Unfold(i) ==> Raised(x, k) == Gauss(re, im)
  }

  lemma FirstPower(x: Gauss)
    ensures IsPower(x, 1, x.re, x.im)
  {
    assert Raised(x, 0) == Gauss(1, 0) && Raised(x, 1) == Times(x, Gauss(1, 0));
  }

  lemma PowerStep(x: Gauss, j: nat, k: nat, a: int, b: int, c: int, d: int, re: int, im: int)
    requires IsPower(x, j, a, b) && IsPower(x, k, c, d) && re == a * c - b * d && im == a * d + b * c
    ensures IsPower(x, j + k, re, im)
  {
    assert Unfold(0);
    RaisedSum(x, j, k);
  }

  lemma PowerOf18(x: Gauss)
    requires x == Gauss(18, 1)
    ensures IsPower(x, 12, 926604049600873, 728065260080136)
  {
    FirstPower(x);
    PowerStep(x, 1, 1, 18, 1, 18, 1, 323, 36);
    PowerStep(x, 2, 2, 323, 36, 323, 36, 103033, 23256);
    PowerStep(x, 4, 4, 103033, 23256, 103033, 23256, 10074957553, 4792270896);
    PowerStep(x, 8, 4, 10074957553, 4792270896, 103033, 23256, 926604049600873, 728065260080136);
  }

  lemma PowerOf57(x: Gauss)
    requires x == Gauss(57, 1)
    ensures IsPower(x, 8, 110469595418128, 15605495560704)
  {
    FirstPower(x);
    PowerStep(x, 1, 1, 57, 1, 57, 1, 3248, 114);
    PowerStep(x, 2, 2, 3248, 114, 3248, 114, 10536508, 740544);
    PowerStep(x, 4, 4, 10536508, 740544, 10536508, 740544, 110469595418128, 15605495560704);
  }

  lemma PowerOf239(x: Gauss)
    requires x == Gauss(239, -1)
    ensures IsPower(x, 5, 779674747204, -16313471996)
  {
    FirstPower(x);
    PowerStep(x, 1, 1, 239, -1, 239, -1, 57120, -478);
    PowerStep(x, 2, 2, 57120, -478, 57120, -478, 3262465916, -54606720);
    PowerStep(x, 4, 1, 3262465916, -54606720, 239, -1, 779674747204, -16313471996);
  }

  lemma Diagonal(x: Gauss, y: Gauss, z: Gauss)
    requires x == Gauss(926604049600873, 728065260080136) && y == Gauss(110469595418128, 15605495560704)
    requires z == Gauss(779674747204, -16313471996)
    ensures Times(Times(x, y), z).re == Times(Times(x, y), z).im > 0
  {
  }

  lemma OnDiagonal(x: Gauss, j: nat, y: Gauss, k: nat, z: Gauss, l: nat)
    requires IsPower(x, j, 926604049600873, 728065260080136) && IsPower(y, k, 110469595418128, 15605495560704)
    requires IsPower(z, l, 779674747204, -16313471996)
    ensures var w := Times(Times(Raised(x, j), Raised(y, k)), Raised(z, l)); w.re == w.im > 0
  {
    assert Unfold(0);
    Diagonal(Raised(x, j), Raised(y, k), Raised(z, l));
  }

  /** The formula of Gauss: (18 + i)^12 (57 + i)^8 (239 - i)^5 lies on the diagonal of the first quadrant,
      so 12 arccot 18 + 8 arccot 57 - 5 arccot 239, which is between 0 and 1, is pi/4. */
  lemma GaussFormula(x: Gauss, y: Gauss, z: Gauss)
    requires x == Gauss(18, 1) && y == Gauss(57, 1) && z == Gauss(239, -1)
    ensures var w := Times(Times(Raised(x, 12), Raised(y, 8)), Raised(z, 5)); w.re == w.im > 0
  {
    PowerOf18(x);
    PowerOf57(y);
    PowerOf239(z);
    OnDiagonal(x, 12, y, 8, z, 5);
  }
}
