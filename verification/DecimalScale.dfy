/** Changing the scale of a decimal: truncating, rounding, ceiling and floor. */
module DecimalScale {
  import opened Arithmetic
  import opened Options
  import opened DecimalArith

  function Pow10(k: nat): (p: int)
    ensures p > 0
  {
    if k == 0 then 1 else 10 * Pow10(k - 1)
  }

  function MaxPrecision(w: Width): nat {
    match w
    case Bits32 => 9
    case Bits64 => 18
    case Bits128 => 38
  }

  lemma {:induction false} PowAdd(i: nat, j: nat)
    ensures Pow10(i + j) == Pow10(i) * Pow10(j)
  {
    if i > 0 {
      PowAdd(i - 1, j);
      assert 10 * (Pow10(i - 1) * Pow10(j)) == (10 * Pow10(i - 1)) * Pow10(j);
    }
  }

  lemma {:induction false} PowMono(i: nat, j: nat)
    requires i <= j
    ensures Pow10(i) <= Pow10(j)
  {
    if i < j {
      PowMono(i, j - 1);
    }
  }

  lemma Pow9()
    ensures Pow10(9) == 1_000_000_000
  {
    assert Pow10(3) == 1000;
    assert Pow10(6) == 1_000_000;
  }

  /** The largest scale multiplier is a proper value, and the next power of ten is not. */
  lemma PrecisionFits(w: Width)
    ensures Pow10(MaxPrecision(w)) <= Max(w) < Pow10(MaxPrecision(w) + 1)
  {
    Pow9();
    PowAdd(9, 9);
    PowAdd(18, 18);
    PowAdd(36, 2);
    assert Pow10(2) == 100;
    assert Pow10(MaxPrecision(w) + 1) == 10 * Pow10(MaxPrecision(w));
  }

  // ---- the functions ----

  /** A NULL passes through; scaling up is checked, scaling down drops digits. */
  function Trunc(w: Width, raw: int, oldScale: nat, newScale: nat): Option<int> {
    if raw == Null(w) then Some(raw)
    else if oldScale > newScale then Some(TruncDiv(raw, Pow10(oldScale - newScale)))
    else MulOverflow(w, raw, Pow10(newScale - oldScale))
  }

  function Round(w: Width, raw: int, oldScale: nat, newScale: nat): Option<int> {
    if raw == Null(w) || oldScale == newScale then Some(raw)
    else if oldScale > newScale then
      var sign := if raw < 0 then -1 else 1;
      var diff := Pow10(oldScale - newScale);
      var quotient := TruncDiv(raw, diff);
      Some(if TruncMod(sign * raw, diff) >= TruncDiv(diff, 2) then quotient + sign else quotient)
    else MulOverflow(w, raw, Pow10(newScale - oldScale))
  }

  function Ceil(w: Width, raw: int, oldScale: nat): Option<int>
    requires Machine(w, raw)
  {
    if raw == Null(w) || oldScale == 0 then Some(raw)
    else
      var quotient := Quotient(w, raw, oldScale);
      if raw > 0 && TruncMod(raw, Pow10(oldScale)) != 0 then AddOverflow(w, quotient, 1) else Some(quotient)
  }

  function Floor(w: Width, raw: int, oldScale: nat): Option<int>
    requires Machine(w, raw)
  {
    if raw == Null(w) || oldScale == 0 then Some(raw)
    else
      var quotient := Quotient(w, raw, oldScale);
      if raw < 0 && TruncMod(raw, Pow10(oldScale)) != 0 then AddOverflow(w, quotient, -1) else Some(quotient)
  }

  function Quotient(w: Width, raw: int, scale: nat): (q: int)
    requires Proper(w, raw) && scale > 0
    ensures -Max(w) < q < Max(w)
  {
    QuotientSmall(raw, scale);
    TruncDiv(raw, Pow10(scale))
  }

  lemma QuotientSmall(raw: int, scale: nat)
    requires scale > 0
    ensures raw != 0 ==> Abs(TruncDiv(raw, Pow10(scale))) < Abs(raw)
    ensures raw == 0 ==> TruncDiv(raw, Pow10(scale)) == 0
  {
    var d := Pow10(scale);
    assert d >= 10;
    TruncAbs(raw, d);
    NatDiv(Abs(raw), d);
    DivSmaller(Abs(raw), d);
  }

  lemma DivSmaller(n: nat, d: int)
    requires d >= 2
    ensures n > 0 ==> 0 <= n / d < n
    ensures n == 0 ==> n / d == 0
  {
    NatDiv(n, d);
    var q := n / d;
    assert n == q * d + n % d;
    Scale(2, d, q);
  }

  // ---- truncation ----

  lemma {:induction false} DivDiv(n: nat, i: int, j: int)
    requires i > 0 && j > 0
    ensures i * j > 0 && (n / i) / j == n / (i * j)
  {
    NatDiv(n, i);
    Multiples(i, j);
    var q, r := n / i, n % i;
    var q', r' := q / j, q % j;
    assert n == q * i + r && q == q' * j + r';
    assert (q' * j) * i == q' * (i * j);
    assert n == q' * (i * j) + (r' * i + r);
    Scale(r', j - 1, i);
    Scale(0, r', i);
    assert (j - 1) * i == i * j - i;
    DivModUnique(n, q', i * j, r' * i + r);
  }

  /** Truncating drops digits: it leaves the multiple next to the value on the side of zero, and
      the sign. */
  lemma TruncIs(w: Width, x: int, a: nat, b: nat)
    requires Proper(w, x) && a > b
    ensures Trunc(w, x, a, b).Some? && Proper(w, Trunc(w, x, a, b).value)
    ensures var r, d := Trunc(w, x, a, b).value, Pow10(a - b);
            && Abs(r * d) <= Abs(x) < Abs(r * d) + d
            && (r > 0 ==> x > 0) && (r < 0 ==> x < 0)
  {
    var d := Pow10(a - b);
    QuotientSmall(x, a - b);
    TruncLaw(x, d);
    NatDiv(Abs(x), d);
    Neighbours(TruncDiv(x, d), d);
    TowardZero(x, d, TruncDiv(x, d), TruncMod(x, d));
  }

  lemma TowardZero(x: int, d: int, q: int, m: int)
    requires d > 0 && x == q * d + m && Abs(m) < d && (m == 0 || (x != 0 && (m < 0 <==> x < 0)))
    requires (q > 0 ==> x >= 0) && (q < 0 ==> x <= 0)
    ensures Abs(q * d) <= Abs(x) < Abs(q * d) + d
    ensures (q > 0 ==> x > 0) && (q < 0 ==> x < 0)
  {
    if q > 0 {
      Scale(1, q, d);
    } else if q < 0 {
      Scale(q, -1, d);
    }
  }

  /** Truncating in two steps is truncating in one. */
  lemma TruncCompose(w: Width, raw: int, a: nat, b: nat, c: nat)
    requires Proper(w, raw) && a >= b >= c
    ensures Trunc(w, raw, a, b).Some? && Proper(w, Trunc(w, raw, a, b).value)
    ensures Trunc(w, Trunc(w, raw, a, b).value, b, c) == Trunc(w, raw, a, c)
  {
    assert Pow10(0) == 1;
    MulExact(w, raw, 1);
    var q := if a > b then TruncDiv(raw, Pow10(a - b)) else raw;
    if a > b {
      QuotientSmall(raw, a - b);
    }
    MulExact(w, q, 1);
    if a > b > c {
      PowAdd(a - b, b - c);
      TruncTrunc(raw, Pow10(a - b), Pow10(b - c));
    }
  }

  lemma TruncTrunc(x: int, i: int, j: int)
    requires i > 0 && j > 0
    ensures i * j > 0 && TruncDiv(TruncDiv(x, i), j) == TruncDiv(x, i * j)
  {
    DivDiv(Abs(x), i, j);
    TruncAbs(x, i);
    NatDiv(Abs(x), i);
    NatDiv(Abs(x) / i, j);
  }

  lemma DownAgain(w: Width, raw: int, y: int, a: nat, b: nat)
    requires a < b && Proper(w, y) && y == raw * Pow10(b - a)
    ensures Trunc(w, y, b, a) == Some(raw) == Round(w, y, b, a)
  {
    Times(raw, Pow10(b - a));
  }

  /** Scaling up is refused exactly when the result is not a proper value, and is exact otherwise;
      scaling back down, by truncating or by rounding, returns the value. */
  lemma UpAndDown(w: Width, raw: int, a: nat, b: nat)
    requires Proper(w, raw) && a <= b
    ensures Trunc(w, raw, a, b).Some? <==> Proper(w, raw * Pow10(b - a))
    ensures Round(w, raw, a, b) == Trunc(w, raw, a, b)
    ensures Trunc(w, raw, a, b).Some? ==> Trunc(w, raw, a, b).value == raw * Pow10(b - a)
    ensures Trunc(w, raw, a, b).Some? ==>
              Trunc(w, Trunc(w, raw, a, b).value, b, a) == Some(raw) == Round(w, Trunc(w, raw, a, b).value, b, a)
  {
    MulExact(w, raw, Pow10(b - a));
    if a == b {
      assert Pow10(0) == 1;
    } else if Proper(w, raw * Pow10(b - a)) {
      DownAgain(w, raw, raw * Pow10(b - a), a, b);
    }
  }

  lemma Times(x: int, d: int)
    requires d > 1
    ensures TruncDiv(x * d, d) == x
    ensures TruncMod(x * d, d) == 0 == TruncMod(-1 * (x * d), d) && TruncDiv(d, 2) > 0
  {
    AbsMul(x, d);
    DivModUnique(Abs(x) * d, Abs(x), d, 0);
    SignMul(x, d);
  }

  // ---- rounding ----

  /** `r` is the multiple of `d` nearest to `x`, and of two equally near the one away from zero. */
  ghost predicate Nearest(x: int, d: int, r: int) {
    2 * Abs(x - r * d) <= d && (2 * Abs(x - r * d) == d ==> Abs(r * d) > Abs(x))
  }

  /** There is only one such multiple. */
  lemma NearestUnique(x: int, d: int, r: int, s: int)
    requires d > 0 && Nearest(x, d, r) && Nearest(x, d, s)
    ensures r == s
  {
    if r < s {
      NearestOrder(x, d, r, s);
    } else if s < r {
      NearestOrder(x, d, s, r);
    }
  }

  lemma NearestOrder(x: int, d: int, r: int, s: int)
    requires d > 0 && r < s
    ensures !Nearest(x, d, r) || !Nearest(x, d, s)
  {
    Scale(r + 1, s, d);
    assert (r + 1) * d == r * d + d;
    if r >= 0 {
      Scale(0, r, d);
    } else if s <= 0 {
      Scale(s, 0, d);
    } else {
      Scale(r, -1, d);
      Scale(1, s, d);
    }
    Between(x, d, r * d, s * d);
  }

  /** Two nearest multiples would lie half a step on either side, and not both away from zero. */
  lemma Between(x: int, d: int, u: int, v: int)
    requires d > 0 && u + d <= v && (u >= 0 || v <= 0 || u + 2 * d <= v)
    ensures 2 * Abs(x - u) > d || 2 * Abs(x - v) > d || (2 * Abs(x - u) == d && Abs(u) <= Abs(x))
            || (2 * Abs(x - v) == d && Abs(v) <= Abs(x))
  {}

  lemma HalfOfPow(k: nat)
    requires k > 0
    ensures 2 * TruncDiv(Pow10(k), 2) == Pow10(k)
  {
    var h := 5 * Pow10(k - 1);
    assert Pow10(k) == 2 * h;
    DivModUnique(Pow10(k), h, 2, 0);
  }

  /** The sign of a value does not change the magnitude of its quotient and its remainder. */
  lemma SignedParts(x: int, d: int)
    requires d > 0
    ensures x >= 0 ==> TruncDiv(x, d) == x / d && TruncMod(x, d) == x % d
    ensures x < 0 ==> TruncDiv(x, d) == -((-x) / d) && TruncMod(-x, d) == (-x) % d
  {}

  lemma HalfReached(m: int, k: nat)
    requires k > 0
    ensures m >= TruncDiv(Pow10(k), 2) <==> 2 * m >= Pow10(k)
  {
    HalfOfPow(k);
  }

  /** The nearest multiple of `d`, in steps of `d`, with ties upward. */
  function HalfUp(n: nat, d: int): int
    requires d > 0
  {
    if 2 * (n % d) >= d then n / d + 1 else n / d
  }

  /** The magnitude of what `round` computes. */
  lemma RoundMagnitude(w: Width, x: int, a: nat, b: nat)
    requires Proper(w, x) && a > b
    ensures Round(w, x, a, b).Some?
    ensures Round(w, x, a, b).value == if x < 0 then -HalfUp(Abs(x), Pow10(a - b)) else HalfUp(Abs(x), Pow10(a - b))
  {
    var d := Pow10(a - b);
    SignedParts(x, d);
    HalfReached(if x < 0 then TruncMod(-x, d) else TruncMod(x, d), a - b);
  }

  lemma RoundLinear(n: int, d: int, p: int, m: int, y: int)
    requires n == p + m && 0 <= m < d && p >= 0 && y == if 2 * m >= d then p + d else p
    ensures 2 * Abs(n - y) <= d && (2 * Abs(n - y) == d ==> y > n >= 0)
  {}

  lemma RoundCore(n: int, d: int, q: int, m: int, r: int)
    requires n == q * d + m && 0 <= m < d && q >= 0 && r == if 2 * m >= d then q + 1 else q
    ensures Nearest(n, d, r) && Nearest(-n, d, -r)
  {
    Neighbours(q, d);
    Scale(0, q, d);
    RoundLinear(n, d, q * d, m, r * d);
    NegMul(r, d);
  }

  lemma NegMul(r: int, d: int)
    ensures (-r) * d == -(r * d)
  {}

  lemma HalfUpNearest(n: int, d: int)
    requires n >= 0 && d >= 2
    ensures Nearest(n, d, HalfUp(n, d)) && Nearest(-n, d, -HalfUp(n, d))
    ensures 0 <= HalfUp(n, d) <= n
  {
    NatDiv(n, d);
    DivSmaller(n, d);
    RoundCore(n, d, n / d, n % d, HalfUp(n, d));
  }

  /** Rounding to a smaller scale gives the nearest value, ties away from zero. */
  lemma RoundNearest(w: Width, x: int, a: nat, b: nat)
    requires Proper(w, x) && a > b
    ensures Round(w, x, a, b).Some? && Nearest(x, Pow10(a - b), Round(w, x, a, b).value)
    ensures Proper(w, Round(w, x, a, b).value)
  {
    RoundMagnitude(w, x, a, b);
    HalfUpNearest(Abs(x), Pow10(a - b));
  }

  lemma RoundDownOdd(w: Width, x: int, a: nat, b: nat)
    requires Proper(w, x) && a > b
    ensures Round(w, x, a, b).Some? && Round(w, -x, a, b).Some?
    ensures Round(w, -x, a, b).value == -Round(w, x, a, b).value
  {
    RoundMagnitude(w, x, a, b);
    RoundMagnitude(w, -x, a, b);
    assert Abs(-x) == Abs(x);
    if x == 0 {
      HalfUpNearest(0, Pow10(a - b));
    }
  }

  /** Rounding commutes with changing the sign. */
  lemma RoundOdd(w: Width, x: int, a: nat, b: nat)
    requires Proper(w, x)
    ensures Round(w, x, a, b).Some? <==> Round(w, -x, a, b).Some?
    ensures Round(w, x, a, b).Some? ==> Round(w, -x, a, b).value == -Round(w, x, a, b).value
  {
    if a > b {
      RoundDownOdd(w, x, a, b);
    } else if a < b {
      MulExact(w, x, Pow10(b - a));
      MulExact(w, -x, Pow10(b - a));
      NegMul(x, Pow10(b - a));
    }
  }

  // ---- ceiling and floor ----

  lemma StepCore(x: int, d: int, q: int, m: int)
    requires d > 0 && x == q * d + m && Abs(m) < d && (m == 0 || (x != 0 && (m < 0 <==> x < 0)))
    ensures x < 0 && m != 0 ==> (q - 1) * d <= x < q * d
    ensures x >= 0 || m == 0 ==> q * d <= x < (q + 1) * d
    ensures x > 0 && m != 0 ==> q * d < x <= (q + 1) * d
    ensures x <= 0 || m == 0 ==> (q - 1) * d < x <= q * d
  {
    Neighbours(q, d);
    StepLinear(x, d, q * d, m);
  }

  lemma StepLinear(x: int, d: int, p: int, m: int)
    requires d > 0 && x == p + m && Abs(m) < d && (m == 0 || (x != 0 && (m < 0 <==> x < 0)))
    ensures x < 0 && m != 0 ==> p - d <= x < p
    ensures x >= 0 || m == 0 ==> p <= x < p + d
    ensures x > 0 && m != 0 ==> p < x <= p + d
    ensures x <= 0 || m == 0 ==> p - d < x <= p
  {}

  lemma Neighbours(q: int, d: int)
    ensures (q + 1) * d == q * d + d && (q - 1) * d == q * d - d
  {}

  /** The floor is the greatest integer not above the value; it never overflows. */
  lemma FloorIs(w: Width, x: int, a: nat)
    requires Proper(w, x)
    ensures Floor(w, x, a).Some?
    ensures var f, d := Floor(w, x, a).value, Pow10(a); f * d <= x < (f + 1) * d
  {
    if a == 0 {
      assert Pow10(0) == 1;
    } else {
      TruncLaw(x, Pow10(a));
      StepCore(x, Pow10(a), Quotient(w, x, a), TruncMod(x, Pow10(a)));
    }
  }

  /** The ceiling is the least integer not below the value; it never overflows. */
  lemma CeilIs(w: Width, x: int, a: nat)
    requires Proper(w, x)
    ensures Ceil(w, x, a).Some?
    ensures var c, d := Ceil(w, x, a).value, Pow10(a); (c - 1) * d < x <= c * d
  {
    if a == 0 {
      assert Pow10(0) == 1;
    } else {
      TruncLaw(x, Pow10(a));
      StepCore(x, Pow10(a), Quotient(w, x, a), TruncMod(x, Pow10(a)));
    }
  }

  lemma FloorCeil(w: Width, x: int, a: nat)
    requires Proper(w, x)
    ensures Floor(w, x, a).Some? && Ceil(w, -x, a).Some?
    ensures Floor(w, x, a).value == -Ceil(w, -x, a).value
  {
    FloorIs(w, x, a);
    CeilIs(w, -x, a);
    var f, c, d := Floor(w, x, a).value, Ceil(w, -x, a).value, Pow10(a);
    assert (-c) * d == -(c * d) && (-c + 1) * d == -((c - 1) * d);
    SameStep(f, -c, d, x);
  }

  /** NULL stays NULL, at whatever scales. */
  lemma NullStays(w: Width, a: nat, b: nat)
    ensures Trunc(w, Null(w), a, b) == Round(w, Null(w), a, b) == Some(Null(w))
    ensures Ceil(w, Null(w), a) == Floor(w, Null(w), a) == Some(Null(w))
  {}

  lemma SameStep(f: int, g: int, d: int, x: int)
    requires d > 0 && f * d <= x < (f + 1) * d && g * d <= x < (g + 1) * d
    ensures f == g
  {
    if f < g {
      Scale(f + 1, g, d);
    } else if g < f {
      Scale(g + 1, f, d);
    }
  }
}
