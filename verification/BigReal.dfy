/** Big reals of the pi computation (kernel/main.c:394-525): arrays of digits in base 10000, most
    significant digit first, with one digit before the point. Every intermediate result is a
    signed 32-bit integer, so each operation below is also proved free of overflow. */
module BigReal {

  newtype int32 = x: int | -0x8000_0000 <= x < 0x8000_0000

  const B: int32 := 10000
  const BASE: int := 10000
  const MAX_DIV: int32 := 450

  function Power(b: int, k: nat): (r: int)
    ensures b > 0 ==> r > 0
  {
    if k == 0 then 1 else Power(b, k - 1) * b
  }

  predicate IsDigit(d: int32) { 0 <= d < B }

  predicate Digits(s: seq<int32>)
  {
    forall i {:trigger s[i]} :: 0 <= i < |s| ==> IsDigit(s[i])
  }

  /** The value of the digits, in units of the last one. */
  function Value(s: seq<int32>): int { High(s, |s|) }

  /** The value of the first `i` digits. */
  function High(s: seq<int32>, i: nat): int
    requires i <= |s|
  {
    if i == 0 then 0 else High(s, i - 1) * BASE + s[i - 1] as int
  }

  /** The value of the digits from `i` on. */
  function Low(s: seq<int32>, i: nat): int
    requires i <= |s|
    decreases |s| - i
  {
    if i == |s| then 0 else s[i] as int * Power(BASE, |s| - 1 - i) + Low(s, i + 1)
  }

  lemma {:induction false} HighLow(s: seq<int32>, i: nat)
    requires i <= |s|
    ensures Value(s) == High(s, i) * Power(BASE, |s| - i) + Low(s, i)
    decreases |s| - i
  {
    if i < |s| {
      HighLow(s, i + 1);
      var pw := Power(BASE, |s| - 1 - i);
      assert Power(BASE, |s| - i) == pw * BASE;
      Horner(High(s, i), s[i] as int, pw);
    }
  }

  lemma Horner(h: int, d: int, pw: int)
    ensures (h * BASE + d) * pw == h * (pw * BASE) + d * pw
  {
  }

  lemma ValueIsLow(s: seq<int32>)
    ensures Value(s) == Low(s, 0)
  {
    HighLow(s, 0);
  }

  lemma {:induction false} SameLow(s: seq<int32>, t: seq<int32>, i: nat)
    requires i <= |s| == |t| && forall j {:trigger s[j]} :: i <= j < |s| ==> s[j] == t[j]
    ensures Low(s, i) == Low(t, i)
    decreases |s| - i
  {
    if i < |s| {
      SameLow(s, t, i + 1);
    }
  }

  lemma {:induction false} SameHigh(s: seq<int32>, t: seq<int32>, i: nat)
    requires i <= |s| == |t| && forall j {:trigger s[j]} :: 0 <= j < i ==> s[j] == t[j]
    ensures High(s, i) == High(t, i)
  {
    if i > 0 {
      SameHigh(s, t, i - 1);
    }
  }

  lemma {:induction false} LowBound(s: seq<int32>, i: nat)
    requires i <= |s| && forall j {:trigger s[j]} :: i <= j < |s| ==> IsDigit(s[j])
    ensures 0 <= Low(s, i) < Power(BASE, |s| - i)
    decreases |s| - i
  {
    if i < |s| {
      LowBound(s, i + 1);
      var pw := Power(BASE, |s| - 1 - i);
      assert Power(BASE, |s| - i) == pw * BASE;
      DigitTimes(s[i] as int, pw);
    }
  }

  lemma NonNegative(a: int, b: int)
    requires 0 <= a && 0 <= b
    ensures 0 <= a * b
  {
  }

  lemma Distribute(a: int, b: int, c: int)
    ensures (a - b) * c == a * c - b * c
  {
  }

  lemma DigitTimes(d: int, pw: int)
    requires 0 <= d < BASE && pw > 0
    ensures 0 <= d * pw <= pw * BASE - pw
  {
    NonNegative(d, pw);
    NonNegative(BASE - 1 - d, pw);
    Distribute(BASE - 1, d, pw);
  }

  lemma ValueBound(s: seq<int32>)
    requires Digits(s)
    ensures 0 <= Value(s) < Power(BASE, |s|)
  {
    LowBound(s, 0);
    ValueIsLow(s);
  }

  lemma Remainder(v: int, q: int, m: int, r: int)
    requires v == q * m + r && 0 <= r < m
    ensures v % m == r && v / m == q
  {
    Unique(v / m, q, m, v % m, r);
  }

  lemma Unique(q: int, q': int, m: int, r: int, r': int)
    requires q * m + r == q' * m + r' && 0 <= r < m && 0 <= r' < m
    ensures q == q' && r == r'
  {
    Distribute(q, q', m);
    if q > q' {
      NonNegative(q - q' - 1, m);
      Distribute(q - q', 1, m);
    } else if q < q' {
      NonNegative(q' - q - 1, m);
      Distribute(q' - q, 1, m);
      Distribute(q', q, m);
    }
  }

  // ---- SetToInteger and IsZero

  method SetToInteger(x: array<int32>, integer: int32)
    requires 1 <= x.Length
    modifies x
    ensures Value(x[..]) == integer as int * Power(BASE, x.Length - 1)
    ensures IsDigit(integer) ==> Digits(x[..])
  {
    var i := 1;
    while i < x.Length
      invariant 1 <= i <= x.Length && forall j {:trigger x[j]} :: 1 <= j < i ==> x[j] == 0
    {
      x[i] := 0;
      i := i + 1;
    }
    x[0] := integer;
    ZeroLow(x[..], 1);
    ValueIsLow(x[..]);
  }

  lemma {:induction false} ZeroLow(s: seq<int32>, i: nat)
    requires i <= |s| && forall j {:trigger s[j]} :: i <= j < |s| ==> s[j] == 0
    ensures Low(s, i) == 0
    decreases |s| - i
  {
    if i < |s| {
      ZeroLow(s, i + 1);
    }
  }

  lemma NonZero(s: seq<int32>, i: nat)
    requires Digits(s) && i < |s| && s[i] != 0
    ensures Value(s) > 0
  {
    HighLow(s, i);
    HighBound(s, i);
    LowBound(s, i + 1);
    assert s[i] as int * Power(BASE, |s| - 1 - i) > 0;
    assert High(s, i) * Power(BASE, |s| - i) >= 0;
  }

  lemma {:induction false} HighBound(s: seq<int32>, i: nat)
    requires i <= |s| && Digits(s)
    ensures 0 <= High(s, i)
  {
    if i > 0 {
      HighBound(s, i - 1);
      assert IsDigit(s[i - 1]);
    }
  }

  method IsZero(x: array<int32>) returns (r: bool)
    requires Digits(x[..])
    ensures r <==> Value(x[..]) == 0
  {
    var i := 0;
    while i < x.Length
      invariant 0 <= i <= x.Length && forall j {:trigger x[j]} :: 0 <= j < i ==> x[j] == 0
    {
      if x[i] != 0 {
        NonZero(x[..], i);
        return false;
      }
      i := i + 1;
    }
    ZeroLow(x[..], 0);
    ValueIsLow(x[..]);
    return true;
  }

  // ---- Add

  /** One step of the carry loops: digit `d` written at `i` with `carry'` going on. */
  lemma CarryStep(s: seq<int32>, i: nat, total: int, carry': int, weight: int)
    requires i < |s| && weight == Power(BASE, |s| - 1 - i)
    requires s[i] as int + carry' * BASE == total
    ensures Low(s, i) + carry' * Power(BASE, |s| - i) == total * weight + Low(s, i + 1)
  {
    assert Power(BASE, |s| - i) == weight * BASE;
    assert (s[i] as int + carry' * BASE) * weight == s[i] as int * weight + carry' * (weight * BASE);
  }

  /** x += y, modulo the range of the array; the carry out of the top digit is lost. */
  method Add(x: array<int32>, y: array<int32>)
    requires x != y && x.Length == y.Length && Digits(x[..]) && Digits(y[..])
    modifies x
    ensures Digits(x[..])
    ensures Value(x[..]) == (old(Value(x[..])) + Value(y[..])) % Power(BASE, x.Length)
  {
    ghost var a, b := x[..], y[..];
    var carry: int32, i := 0, x.Length;
    while i > 0
      invariant 0 <= i <= x.Length && 0 <= carry <= 1
      invariant forall j {:trigger x[j]} :: 0 <= j < i ==> x[j] == a[j]
      invariant forall j {:trigger x[j]} :: i <= j < x.Length ==> IsDigit(x[j])
      invariant Low(x[..], i) + carry as int * Power(BASE, x.Length - i) == Low(a, i) + Low(b, i)
    {
      i := i - 1;
      ghost var before, c := x[..], carry as int;
      assert x[i] == a[i] && IsDigit(a[i]) && IsDigit(b[i]);
      x[i] := x[i] + y[i] + carry;
      if x[i] < B {
        carry := 0;
      } else {
        carry := 1;
        x[i] := x[i] - B;
      }
      AddStep(a, b, before, x[..], i, c, carry as int);
    }
    ValueIsLow(x[..]);
    ValueIsLow(a);
    ValueIsLow(b);
    ValueBound(x[..]);
    Remainder(Value(a) + Value(b), carry as int, Power(BASE, x.Length), Value(x[..]));
  }

  lemma AddStep(a: seq<int32>, b: seq<int32>, s: seq<int32>, t: seq<int32>, i: nat, carry: int, carry': int)
    requires |a| == |b| == |s| == |t| && i < |s|
    requires forall j {:trigger t[j]} :: i < j < |s| ==> t[j] == s[j]
    requires t[i] as int + carry' * BASE == a[i] as int + b[i] as int + carry
    requires Low(s, i + 1) + carry * Power(BASE, |s| - 1 - i) == Low(a, i + 1) + Low(b, i + 1)
    ensures Low(t, i) + carry' * Power(BASE, |s| - i) == Low(a, i) + Low(b, i)
  {
    var pw := Power(BASE, |s| - 1 - i);
    SameLow(t, s, i + 1);
    CarryStep(t, i, a[i] as int + b[i] as int + carry, carry', pw);
    assert (a[i] as int + b[i] as int + carry) * pw == a[i] as int * pw + b[i] as int * pw + carry * pw;
  }

  // ---- Sub

  /** x -= y, exactly: the lower digits are digits, and the top one is negative just when y is
      greater than x. */
  method Sub(x: array<int32>, y: array<int32>)
    requires x != y && x.Length == y.Length && Digits(x[..]) && Digits(y[..])
    modifies x
    ensures Value(x[..]) == old(Value(x[..])) - Value(y[..])
    ensures forall j {:trigger x[j]} :: 0 < j < x.Length ==> IsDigit(x[j])
    ensures 0 < x.Length ==> (x[0] < 0 <==> old(Value(x[..])) < Value(y[..]))
    ensures old(Value(x[..])) >= Value(y[..]) ==> Digits(x[..])
  {
    ghost var a, b := x[..], y[..];
    var i := x.Length;
    ghost var borrow := 0;
    while i > 0
      invariant 0 <= i <= x.Length && 0 <= borrow <= 1 && (i == 0 || i == x.Length ==> borrow == 0)
      invariant forall j {:trigger x[j]} :: 0 <= j < i - 1 ==> x[j] == a[j]
      invariant i > 0 ==> x[i - 1] as int == a[i - 1] as int - borrow
      invariant forall j {:trigger x[j]} :: i <= j < x.Length && j > 0 ==> IsDigit(x[j])
      invariant i == 0 && x.Length > 0 ==> -B <= x[0] < B
      invariant Low(x[..], i) - borrow * Power(BASE, x.Length - i) == Low(a, i) - Low(b, i)
    {
      i := i - 1;
      ghost var before, c := x[..], borrow;
      assert IsDigit(a[i]) && IsDigit(b[i]) && (i > 0 ==> IsDigit(a[i - 1]));
      borrow := 0;
      x[i] := x[i] - y[i];
      if x[i] < 0 {
        if i != 0 {
          x[i] := x[i] + B;
          x[i - 1] := x[i - 1] - 1;
          borrow := 1;
        }
      }
      SubStep(a, b, before, x[..], i, c, borrow);
    }
    ValueIsLow(x[..]);
    ValueIsLow(a);
    ValueIsLow(b);
    if x.Length > 0 {
      TopDigit(x[..]);
    }
  }

  lemma SubStep(a: seq<int32>, b: seq<int32>, s: seq<int32>, t: seq<int32>, i: nat, borrow: int, borrow': int)
    requires |a| == |b| == |s| == |t| && i < |s|
    requires forall j {:trigger t[j]} :: i < j < |s| ==> t[j] == s[j]
    requires t[i] as int - borrow' * BASE == a[i] as int - b[i] as int - borrow
    requires Low(s, i + 1) - borrow * Power(BASE, |s| - 1 - i) == Low(a, i + 1) - Low(b, i + 1)
    ensures Low(t, i) - borrow' * Power(BASE, |s| - i) == Low(a, i) - Low(b, i)
  {
    var pw := Power(BASE, |s| - 1 - i);
    SameLow(t, s, i + 1);
    CarryStep(t, i, a[i] as int - b[i] as int - borrow, -borrow', pw);
    Distribute(a[i] as int, b[i] as int, pw);
    Distribute(a[i] as int - b[i] as int, borrow, pw);
    assert -borrow' * Power(BASE, |s| - i) == -(borrow' * Power(BASE, |s| - i));
  }

  lemma Sign(d: int, pw: int, low: int)
    requires 0 <= low < pw
    ensures d < 0 <==> d * pw + low < 0
  {
    if d < 0 {
      NonNegative(-1 - d, pw);
      Distribute(-1, d, pw);
    } else {
      NonNegative(d, pw);
    }
  }

  /** The sign of a number is the sign of its top digit. */
  lemma TopDigit(s: seq<int32>)
    requires |s| > 0 && forall j {:trigger s[j]} :: 0 < j < |s| ==> IsDigit(s[j])
    ensures s[0] < 0 <==> Value(s) < 0
  {
    ValueIsLow(s);
    LowBound(s, 1);
    Sign(s[0] as int, Power(BASE, |s| - 1), Low(s, 1));
  }

  // ---- Mul

  /** x = x*q, modulo the range of the array. */
  method Mul(x: array<int32>, q: int32)
    requires Digits(x[..]) && 0 <= q && q as int * BASE < 0x8000_0000
    modifies x
    ensures Digits(x[..])
    ensures Value(x[..]) == old(Value(x[..])) * q as int % Power(BASE, x.Length)
  {
    ghost var a := x[..];
    var carry: int32, i := 0, x.Length;
    while i > 0
      invariant 0 <= i <= x.Length && 0 <= carry && (carry == 0 || carry < q)
      invariant forall j {:trigger x[j]} :: 0 <= j < i ==> x[j] == a[j]
      invariant forall j {:trigger x[j]} :: i <= j < x.Length ==> IsDigit(x[j])
      invariant Low(x[..], i) + carry as int * Power(BASE, x.Length - i) == Low(a, i) * q as int
    {
      i := i - 1;
      ghost var before, c := x[..], carry as int;
      assert x[i] == a[i] && IsDigit(a[i]);
      MulFits(x[i] as int, q as int, carry as int);
      var xi := x[i] * q;
      xi := xi + carry;
      ghost var total := xi as int;
      if xi >= B {
        carry := xi / B;
        xi := xi - carry * B;
      } else {
        carry := 0;
      }
      x[i] := xi;
      MulStep(a, before, x[..], i, q as int, c, carry as int);
    }
    ValueIsLow(x[..]);
    ValueIsLow(a);
    ValueBound(x[..]);
    Remainder(Value(a) * q as int, carry as int, Power(BASE, x.Length), Value(x[..]));
  }

  lemma MulFits(d: int, q: int, carry: int)
    requires 0 <= d < BASE && 0 <= q && 0 <= carry && (carry == 0 || carry < q)
    ensures 0 <= d * q <= (BASE - 1) * q
    ensures (d * q + carry) / BASE == 0 || (d * q + carry) / BASE < q
  {
    NonNegative(d, q);
    NonNegative(BASE - 1 - d, q);
    Distribute(BASE - 1, d, q);
  }

  lemma MulSpread(d: int, q: int, carry: int, pw: int, low: int)
    ensures (d * q + carry) * pw + low * q == (d * pw + low) * q + carry * pw
  {
  }

  lemma MulStep(a: seq<int32>, s: seq<int32>, t: seq<int32>, i: nat, q: int, carry: int, carry': int)
    requires |a| == |s| == |t| && i < |s|
    requires forall j {:trigger t[j]} :: i < j < |s| ==> t[j] == s[j]
    requires t[i] as int + carry' * BASE == a[i] as int * q + carry
    requires Low(s, i + 1) + carry * Power(BASE, |s| - 1 - i) == Low(a, i + 1) * q
    ensures Low(t, i) + carry' * Power(BASE, |s| - i) == Low(a, i) * q
  {
    var d, pw, low := a[i] as int, Power(BASE, |s| - 1 - i), Low(a, i + 1);
    SameLow(t, s, i + 1);
    CarryStep(t, i, d * q + carry, carry', pw);
    MulSpread(d, q, carry, pw, low);
  }

  // ---- Div

  /** y = x/d, rounded down; x and y may be the same array. */
  method Div(x: array<int32>, d: int32, y: array<int32>)
    requires x.Length == y.Length && Digits(x[..]) && 1 <= d <= MAX_DIV * MAX_DIV
    modifies y
    ensures Digits(y[..])
    ensures Value(y[..]) == old(Value(x[..])) / d as int
  {
    ghost var a := x[..];
    var carry: int32, i := 0, 0;
    while i < x.Length
      invariant 0 <= i <= x.Length && 0 <= carry < d
      invariant forall j {:trigger x[j]} :: i <= j < x.Length ==> x[j] == a[j]
      invariant forall j {:trigger y[j]} :: 0 <= j < i ==> IsDigit(y[j])
      invariant High(a, i) == High(y[..], i) * d as int + carry as int
    {
      assert x[i] == a[i] && IsDigit(a[i]);
      ghost var before, c := y[..], carry as int;
      assert carry as int * BASE <= d as int * BASE - BASE;
      var xi := x[i] + carry * B;
      var q := xi / d;
      Quotient(xi as int, d as int);
      carry := xi - q * d;
      y[i] := q;
      SameHigh(before, y[..], i);
      DivStep(High(a, i), High(before, i), d as int, c, a[i] as int, q as int, carry as int);
      i := i + 1;
    }
    Remainder(Value(a), Value(y[..]), d as int, carry as int);
  }

  lemma Quotient(xi: int, d: int)
    requires 1 <= d && 0 <= xi < d * BASE
    ensures 0 <= xi / d < BASE && 0 <= xi / d * d <= xi && xi - xi / d * d < d
  {
    var q := xi / d;
    assert xi == q * d + xi % d;
    if q >= BASE {
      NonNegative(q - BASE, d);
      Distribute(q, BASE, d);
    } else if q < 0 {
      NonNegative(-1 - q, d);
      Distribute(-1, q, d);
    }
  }

  lemma DivStep(h: int, g: int, d: int, carry: int, digit: int, q: int, carry': int)
    requires h == g * d + carry && digit + carry * BASE == q * d + carry'
    ensures h * BASE + digit == (g * BASE + q) * d + carry'
  {
    assert (g * BASE + q) * d == g * d * BASE + q * d;
  }
}
