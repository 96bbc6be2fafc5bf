/** Checked arithmetic on raw decimal values. The least machine value stands for NULL, so results
    range from `-Max` to `Max`. */
module DecimalArith {
  import opened Arithmetic
  import opened Options

  /** The three raw types, 32, 64 and 128 bits wide. */
  datatype Width = Bits32 | Bits64 | Bits128

  function Max(w: Width): (m: int)
    ensures m > 0
  {
    match w
    case Bits32 => 0x7FFF_FFFF
    case Bits64 => 0x7FFF_FFFF_FFFF_FFFF
    case Bits128 => 0x7FFF_FFFF_FFFF_FFFF_FFFF_FFFF_FFFF_FFFF
  }

  function Null(w: Width): int {
    -Max(w) - 1
  }

  /** Any value of the machine type. */
  predicate Machine(w: Width, x: int) {
    Null(w) <= x <= Max(w)
  }

  /** A value that is not NULL. */
  predicate Proper(w: Width, x: int) {
    -Max(w) <= x <= Max(w)
  }

  function Abs(x: int): (y: int)
    ensures y >= 0 && (y == x || y == -x)
  {
    if x > 0 then x else -x
  }

  // ---- division as the machine does it, toward zero ----

  function TruncDiv(a: int, b: int): int
    requires b != 0
  {
    if (a < 0) == (b < 0) then Abs(a) / Abs(b) else -(Abs(a) / Abs(b))
  }

  function TruncMod(a: int, b: int): int
    requires b != 0
  {
    if a < 0 then -(Abs(a) % Abs(b)) else Abs(a) % Abs(b)
  }

  /** The quotient and the remainder, which takes the sign of the dividend. */
  lemma TruncLaw(a: int, b: int)
    requires b != 0
    ensures a == TruncDiv(a, b) * b + TruncMod(a, b)
    ensures Abs(TruncMod(a, b)) < Abs(b)
    ensures TruncMod(a, b) == 0 || (a != 0 && (TruncMod(a, b) < 0 <==> a < 0))
  {
    var n, m := Abs(a), Abs(b);
    var q, r := n / m, n % m;
    assert n == q * m + r;
    assert (-q) * b == -(q * b) && (-q) * (-m) == q * m;
  }

  // ---- addition, subtraction, multiplication ----

  function AddOverflow(w: Width, a: int, b: int): Option<int>
    requires Machine(w, a) && Machine(w, b)
  {
    if b > 0 && a > Max(w) - b then None
    else if b < 0 && a <= Null(w) - b then None
    else Some(a + b)
  }

  function SubOverflow(w: Width, a: int, b: int): Option<int>
    requires Machine(w, a) && Machine(w, b)
  {
    if b < 0 && a > Max(w) + b then None
    else if b > 0 && a <= Null(w) + b then None
    else Some(a - b)
  }

  function MulOverflow(w: Width, a: int, b: int): Option<int> {
    if b != 0 && Abs(a) > Max(w) / Abs(b) then None else Some(a * b)
  }

  /** Overflow is reported exactly when the sum is not a proper value. The one exception is NULL
      plus zero, which passes through. */
  lemma AddExact(w: Width, a: int, b: int)
    requires Machine(w, a) && Machine(w, b)
    ensures AddOverflow(w, a, b).Some? <==> Proper(w, a + b) || (a == Null(w) && b == 0)
    ensures AddOverflow(w, a, b).Some? ==> AddOverflow(w, a, b).value == a + b
  {}

  lemma SubExact(w: Width, a: int, b: int)
    requires Machine(w, a) && Machine(w, b)
    ensures SubOverflow(w, a, b).Some? <==> Proper(w, a - b) || (a == Null(w) && b == 0)
    ensures SubOverflow(w, a, b).Some? ==> SubOverflow(w, a, b).value == a - b
  {}

  lemma MulDivMono(x: nat, y: nat, m: nat)
    requires y > 0
    ensures x <= m / y <==> x * y <= m
  {
    var q := m / y;
    assert m == q * y + m % y;
    if x <= q {
      assert x * y <= q * y;
    } else {
      assert (q + 1) * y <= x * y;
    }
  }

  lemma AbsMul(a: int, b: int)
    ensures Abs(a * b) == Abs(a) * Abs(b)
  {
    if a >= 0 && b >= 0 {
    } else if a < 0 && b < 0 {
      assert a * b == (-a) * (-b);
    } else if a < 0 {
      assert a * b == -((-a) * b);
    } else {
      assert a * b == -(a * (-b));
    }
  }

  /** A product is reported to overflow exactly when it is not a proper value. NULL is no operand:
      the code would negate the least value to get its magnitude. */
  lemma MulExact(w: Width, a: int, b: int)
    requires a != Null(w) && b != Null(w)
    ensures MulOverflow(w, a, b).Some? <==> Proper(w, a * b)
    ensures MulOverflow(w, a, b).Some? ==> MulOverflow(w, a, b).value == a * b
  {
    AbsMul(a, b);
    if b != 0 {
      MulDivMono(Abs(a), Abs(b), Max(w));
    }
  }

  // ---- greatest common divisors ----

  function Gcd(a: nat, b: nat): nat
    decreases a
  {
    if a == 0 then b else Gcd(b % a, a)
  }

  ghost predicate Divides(d: int, n: int) {
    exists k: int :: n == d * k
  }

  /** Bezout: the greatest common divisor is a combination of the two numbers. */
  lemma {:induction false} Bezout(a: nat, b: nat) returns (x: int, y: int)
    ensures Gcd(a, b) == a * x + b * y
    decreases a
  {
    if a == 0 {
      x, y := 0, 1;
    } else {
      var u, v := Bezout(b % a, a);
      var q := b / a;
      assert b == a * q + b % a;
      assert (b - a * q) * u + a * v == a * (v - q * u) + b * u;
      x, y := v - q * u, u;
    }
  }

  lemma Collect(d: int, i: int, j: int, x: int, y: int)
    ensures (d * i) * x + (d * j) * y == d * (i * x + j * y)
  {
    assert (d * i) * x == d * (i * x);
    assert (d * j) * y == d * (j * y);
  }

  lemma DividesSum(d: int, m: int, n: int, x: int, y: int)
    requires Divides(d, m) && Divides(d, n)
    ensures Divides(d, m * x + n * y)
  {
    var i :| m == d * i;
    var j :| n == d * j;
    Collect(d, i, j, x, y);
  }

  lemma DividesProduct(d: int, n: int, k: int)
    requires Divides(d, n)
    ensures Divides(d, n * k)
  {
    DividesSum(d, n, n, k, 0);
  }

  lemma DividesTrans(d: int, m: int, n: int)
    requires Divides(d, m) && Divides(m, n)
    ensures Divides(d, n)
  {
    var j :| n == m * j;
    DividesProduct(d, m, j);
  }

  lemma {:induction false} GcdDivides(a: nat, b: nat)
    ensures Divides(Gcd(a, b), a) && Divides(Gcd(a, b), b)
    ensures a > 0 || b > 0 ==> Gcd(a, b) > 0
    decreases a
  {
    if a == 0 {
      assert 0 == b * 0 && b == b * 1;
    } else {
      GcdDivides(b % a, a);
      DividesSum(Gcd(a, b), b % a, a, 1, b / a);
      assert b == (b % a) * 1 + a * (b / a);
    }
  }

  /** Every common divisor divides the greatest one. */
  lemma GcdGreatest(a: nat, b: nat, d: int)
    requires Divides(d, a) && Divides(d, b)
    ensures Divides(d, Gcd(a, b))
  {
    var x, y := Bezout(a, b);
    DividesSum(d, a, b, x, y);
  }

  lemma Regroup(a: int, b: int, d: int, x: int, y: int)
    ensures (a * b) * x + (d * b) * y == (a * x + d * y) * b
  {
    assert (a * b) * x == (a * x) * b;
    assert (d * b) * y == (d * y) * b;
  }

  /** Euclid's lemma: what divides a product and shares nothing with one factor divides the other. */
  lemma Euclid(d: nat, a: nat, b: nat)
    requires Gcd(a, d) == 1 && Divides(d, a * b)
    ensures Divides(d, b)
  {
    var x, y := Bezout(a, d);
    assert Divides(d, d * b);
    DividesSum(d, a * b, d * b, x, y);
    Regroup(a, b, d, x, y);
  }

  /** The sign and least size of a multiple. */
  lemma Multiples(g: int, k: int)
    requires g > 0
    ensures g * k > 0 <==> k > 0
    ensures k >= 1 ==> g * k >= g
    ensures k >= 2 ==> g * k >= 2 * g
  {
    if k >= 2 {
      Scale(2, k, g);
    } else if k <= 0 {
      Scale(k, 0, g);
    }
  }

  lemma DividesOne(g: nat)
    requires Divides(g, 1)
    ensures g == 1
  {
    var k :| 1 == g * k;
    Multiples(g, k);
  }

  lemma {:induction false} GcdScale(a: nat, b: nat, g: nat)
    requires g > 0
    ensures Gcd(a * g, b * g) == Gcd(a, b) * g
    decreases a
  {
    if a > 0 {
      ModScale(b, a, g);
      GcdScale(b % a, a, g);
    }
  }

  lemma ModScale(b: nat, a: nat, g: nat)
    requires a > 0 && g > 0
    ensures a * g > 0 && (b * g) / (a * g) == b / a && (b * g) % (a * g) == (b % a) * g
  {
    var q, r := b / a, b % a;
    assert b == q * a + r;
    assert b * g == q * (a * g) + r * g;
    assert 0 <= r * g < a * g by {
      assert r * g <= (a - 1) * g;
    }
    DivModUnique(b * g, q, a * g, r * g);
  }

  /** Dividing both numbers by their greatest common divisor leaves nothing in common. */
  lemma CoprimeQuotients(x: nat, y: nat, g: nat)
    requires g > 0 && Gcd(x * g, y * g) == g
    ensures Gcd(x, y) == 1
  {
    GcdScale(x, y, g);
    TimesItself(g, Gcd(x, y));
  }

  lemma TimesItself(g: nat, k: nat)
    requires g > 0 && k * g == g
    ensures k == 1
  {
    Multiples(g, k);
  }

  lemma CoprimeDivisor(a: nat, d: nat, g: nat)
    requires Gcd(a, d) == 1 && Divides(g, d)
    ensures Gcd(a, g) == 1
  {
    var h := Gcd(a, g);
    GcdDivides(a, g);
    DividesTrans(h, g, d);
    GcdGreatest(a, d, h);
    DividesOne(h);
  }

  lemma CoprimeMul(a: nat, b: nat, d: nat)
    requires Gcd(a, d) == 1 && Gcd(b, d) == 1
    ensures Gcd(a * b, d) == 1
  {
    var g := Gcd(a * b, d);
    GcdDivides(a * b, d);
    CoprimeDivisor(a, d, g);
    Euclid(g, a, b);
    GcdGreatest(b, d, g);
    DividesOne(g);
  }

  /** The loop of `gcd`, on signed numbers: its result has the magnitude of the greatest common
      divisor, and any sign. */
  method SignedGcd(x: int, y: int) returns (b: int)
    ensures Abs(b) == Gcd(Abs(x), Abs(y))
  {
    var a := x;
    b := y;
    while a != 0
      invariant Gcd(Abs(a), Abs(b)) == Gcd(Abs(x), Abs(y))
      decreases Abs(a)
    {
      var c := a;
      a := TruncMod(b, a);
      b := c;
    }
  }

  // ---- multiplying and dividing ----

  lemma ScaledMagnitude(x: int, y: int, g: int)
    requires y != 0 && g != 0
    ensures Abs(y * g) > 0 && Abs(x * g) / Abs(y * g) == Abs(x) / Abs(y)
  {
    AbsMul(x, g);
    AbsMul(y, g);
    ModScale(Abs(x), Abs(y), Abs(g));
  }

  /** Reducing by a common factor of any sign does not change a truncated quotient. */
  lemma TruncScale(x: int, y: int, g: int)
    requires y != 0 && g != 0
    ensures y * g != 0 && TruncDiv(x * g, y * g) == TruncDiv(x, y)
  {
    ScaledMagnitude(x, y, g);
    SignMul(x, g);
    SignMul(y, g);
    if x == 0 {
      NatDivZero(Abs(y));
    }
  }

  lemma NatDivZero(m: int)
    requires m > 0
    ensures 0 / m == 0
  {
    DivModUnique(0, 0, m, 0);
  }

  lemma SignMul(x: int, g: int)
    requires g != 0
    ensures x != 0 ==> ((x * g < 0) <==> ((x < 0) != (g < 0)))
    ensures x == 0 ==> x * g == 0
  {
    if x > 0 && g > 0 {
    } else if x > 0 {
      assert x * (-g) > 0;
    } else if x < 0 && g > 0 {
      assert (-x) * g > 0;
    } else if x < 0 {
      assert (-x) * (-g) > 0;
    }
  }

  lemma DivExact(n: nat, m: nat)
    requires m > 0 && Divides(m, n)
    ensures n == m * (n / m) && n / m <= n
  {
    var k :| n == m * k;
    Multiples(m, k);
    assert n == k * m;
    DivModUnique(n, k, m, 0);
    if k > 0 {
      Scale(1, m, k);
    }
  }

  /** A value is exactly the product of its quotient by a divisor and that divisor. */
  lemma TruncDivides(x: int, c: int)
    requires c != 0 && Divides(Abs(c), Abs(x))
    ensures TruncDiv(x, c) * c == x
    ensures Abs(TruncDiv(x, c)) * Abs(c) == Abs(x) && Abs(TruncDiv(x, c)) <= Abs(x)
  {
    DivExact(Abs(x), Abs(c));
    var q := TruncDiv(x, c);
    AbsMul(q, c);
    if q != 0 {
      SignMul(q, c);
    }
  }

  /** Take the common factors out of one value and the divisor. */
  method Reduce(value: int, divisor: int) returns (v: int, d: int, ghost c: int)
    requires divisor != 0
    ensures c != 0 && v * c == value && d * c == divisor && d != 0
    ensures Abs(c) == Gcd(Abs(value), Abs(divisor)) && Gcd(Abs(v), Abs(d)) == 1
    ensures Abs(v) <= Abs(value) && Abs(d) <= Abs(divisor)
  {
    var g := SignedGcd(value, divisor);
    c := g;
    GcdDivides(Abs(value), Abs(divisor));
    TruncDivides(value, g);
    TruncDivides(divisor, g);
    v, d := value, divisor;
    if g != 1 {
      v, d := TruncDiv(v, g), TruncDiv(d, g);
    }
    CoprimeQuotients(Abs(v), Abs(d), Abs(g));
  }

  /** Overflow is reported exactly when the product, with everything it has in common with the
      divisor taken out, is not a proper value; and otherwise the result is the quotient of the
      whole product, truncated toward zero. */
  method MulDivOverflow(w: Width, value1: int, value2: int, divisor: int) returns (r: Option<int>)
    requires Proper(w, value1) && Proper(w, value2) && Proper(w, divisor) && divisor != 0
    ensures r.None? <==> Abs(value1 * value2) / Reduction(value1 * value2, divisor) > Max(w)
    ensures r.Some? ==> r.value == TruncDiv(value1 * value2, divisor)
  {
    var v1, v2, d;
    ghost var c1, c2, d1;
    v1, d, c1 := Reduce(value1, divisor);
    d1 := d;
    v2, d, c2 := Reduce(value2, d);
    Reduced(value1, value2, divisor, v1, v2, d1, d, c1, c2);
    MulExact(w, v1, v2);
    r := MulOverflow(w, v1, v2);
    if r.Some? {
      r := Some(TruncDiv(r.value, d));
    }
  }

  /** What a product and a divisor have in common. */
  function Reduction(product: int, divisor: int): (g: nat)
    requires divisor != 0
    ensures g > 0
  {
    GcdDivides(Abs(product), Abs(divisor));
    Gcd(Abs(product), Abs(divisor))
  }

  lemma Regroup4(v1: int, c1: int, v2: int, c2: int)
    ensures (v1 * c1) * (v2 * c2) == (v1 * v2) * (c1 * c2)
  {
    assert (v1 * c1) * (v2 * c2) == v1 * (c1 * (v2 * c2));
    assert c1 * (v2 * c2) == v2 * (c1 * c2);
  }

  lemma Regroup3(d: int, c2: int, c1: int)
    ensures (d * c2) * c1 == d * (c1 * c2)
  {}

  /** Reducing one factor and then the other takes out all that the product and the divisor have
      in common. */
  lemma Reduced(value1: int, value2: int, divisor: int, v1: int, v2: int, d1: int, d: int, c1: int, c2: int)
    requires divisor != 0 && d != 0 && c1 != 0 && c2 != 0
    requires v1 * c1 == value1 && d1 * c1 == divisor && Gcd(Abs(v1), Abs(d1)) == 1
    requires v2 * c2 == value2 && d * c2 == d1 && Gcd(Abs(v2), Abs(d)) == 1
    ensures TruncDiv(value1 * value2, divisor) == TruncDiv(v1 * v2, d)
    ensures Abs(value1 * value2) / Reduction(value1 * value2, divisor) == Abs(v1 * v2)
  {
    Regroup4(v1, c1, v2, c2);
    Regroup3(d, c2, c1);
    NonZero(c1, c2);
    CoprimeProduct(v1, v2, d1, d, c2);
    ReducedBy(v1 * v2, d, c1 * c2);
  }

  lemma CoprimeProduct(v1: int, v2: int, d1: int, d: int, c2: int)
    requires d * c2 == d1 && Gcd(Abs(v1), Abs(d1)) == 1 && Gcd(Abs(v2), Abs(d)) == 1
    ensures Gcd(Abs(v1 * v2), Abs(d)) == 1
  {
    AbsMul(v1, v2);
    AbsMul(d, c2);
    assert Divides(Abs(d), Abs(d1));
    CoprimeDivisor(Abs(v1), Abs(d1), Abs(d));
    CoprimeMul(Abs(v1), Abs(v2), Abs(d));
  }

  lemma ReducedBy(x: int, d: int, c: int)
    requires d != 0 && c != 0 && Gcd(Abs(x), Abs(d)) == 1
    ensures d * c != 0 && TruncDiv(x * c, d * c) == TruncDiv(x, d)
    ensures Abs(x * c) / Reduction(x * c, d * c) == Abs(x)
  {
    TruncScale(x, d, c);
    AbsMul(x, c);
    AbsMul(d, c);
    GcdScale(Abs(x), Abs(d), Abs(c));
    DivModUnique(Abs(x) * Abs(c), Abs(x), Abs(c), 0);
  }

  lemma NonZero(a: int, b: int)
    requires a != 0 && b != 0
    ensures a * b != 0
  {
    SignMul(a, b);
  }

  lemma DividesAbs(d: int, n: int)
    requires Divides(d, n)
    ensures Divides(Abs(d), Abs(n)) && Divides(Abs(d), Abs(d))
  {
    var k :| n == d * k;
    AbsMul(d, k);
    assert Abs(n) == Abs(d) * Abs(k);
    assert Abs(d) == Abs(d) * 1;
  }

  lemma TruncAbs(x: int, d: int)
    requires d != 0
    ensures Abs(TruncDiv(x, d)) == Abs(x) / Abs(d)
  {
    NatDiv(Abs(x), Abs(d));
  }

  lemma NatDiv(n: nat, m: nat)
    requires m > 0
    ensures n / m >= 0
  {
    if n / m < 0 {
      Scale(n / m, -1, m);
    }
  }

  /** When the divisor divides the product, overflow is reported exactly when the true quotient is
      not a proper value. */
  lemma ExactQuotient(w: Width, product: int, divisor: int)
    requires divisor != 0 && Divides(divisor, product)
    ensures Abs(product) / Reduction(product, divisor) > Max(w) <==> !Proper(w, TruncDiv(product, divisor))
  {
    DividesAbs(divisor, product);
    GcdDivides(Abs(product), Abs(divisor));
    GcdGreatest(Abs(product), Abs(divisor), Abs(divisor));
    DividesAntisymmetric(Gcd(Abs(product), Abs(divisor)), Abs(divisor));
    TruncAbs(product, divisor);
  }

  lemma DividesAntisymmetric(a: nat, b: nat)
    requires a > 0 && b > 0 && Divides(a, b) && Divides(b, a)
    ensures a == b
  {
    var i :| b == a * i;
    var j :| a == b * j;
    Multiples(a, i);
    Multiples(b, j);
  }

  /** An overflow that is reported although the quotient fits: max times two, divided by three. */
  lemma FalseOverflow()
    ensures var p := Max(Bits32) * 2;
            Abs(p) / Reduction(p, 3) > Max(Bits32) && Proper(Bits32, TruncDiv(p, 3))
  {
    var p := 4294967294;
    assert 3 % p == 3 && p % 3 == 2 && p / 3 == 1431655764;
    assert Gcd(0, 1) == 1;
    assert Gcd(1, 2) == 1;
    assert Gcd(2, 3) == 1;
    assert Gcd(3, p) == 1;
    assert Gcd(p, 3) == 1;
  }
}
