/**
 * Arithmetic on extended integers (`integer_tricks.py`): the integers together with
 * `+inf`, `-inf` and `nan`. The convention is that `inf` is the product of all positive
 * integers, so that `inf % anything == 0` and `anything % inf == anything`.
 */
module IntegerTricks {
  import opened Results

  /** The value an `ExtendedInt` holds: an `int`, or one of the floats `inf`, `-inf`, `nan`. */
  datatype EInt = Fin(n: int) | PosInf | NegInf | NaN {
    /** An `int` that `float()` cannot hold: `math.isnan` and `math.isfinite` raise on it. */
    predicate TooLarge() { Fin? && !FloatConvertible(n) }
    /** `math.isfinite`, once the value is known to convert to a float */
    predicate IsFinite() { Fin? }
    /** `math.isinf`, once the value is known to convert to a float */
    predicate IsInf() { PosInf? || NegInf? }
    /** `math.isnan`, once the value is known to convert to a float */
    predicate IsNaN() { NaN? }
    /** `x in {1, -1}` */
    predicate IsUnit() { this == Fin(1) || this == Fin(-1) }
  }

  /**
   * `2**1024 - 2**970`, halfway between the largest double `(2**53 - 1) * 2**971` and
   * `2**1024`. Converting an `int` to a float rounds half to even, so from this size on it
   * rounds to `2**1024` and raises `OverflowError`.
   */
  const FloatOverflow: nat := 0xFFFFFFFFFFFFFC00_0000000000000000_0000000000000000_0000000000000000_0000000000000000_0000000000000000_0000000000000000_0000000000000000_0000000000000000_0000000000000000_0000000000000000_0000000000000000_0000000000000000_0000000000000000_0000000000000000_0000000000000000

  /** `float(n)` succeeds for the `int` `n`. */
  predicate FloatConvertible(n: int) {
    Abs(n) < FloatOverflow
  }

  /** `math.isnan(x) or math.isnan(y)` raises: on `x`, or on `y` when `x` is not `nan`. */
  predicate NaNTestOverflows(x: EInt, y: EInt) {
    x.TooLarge() || (!x.NaN? && y.TooLarge())
  }

  /**
   * `math.isnan(x) or math.isnan(y)`, the first test of `mod`, `divmod_`, `gcd` and
   * `invert`: each argument is converted to a float in turn, and `y` only when `x` is not
   * `nan`. Once it returns, both arguments convert, so the later `math.isfinite` and
   * `math.isinf` tests cannot raise.
   */
  function EitherNaN(x: EInt, y: EInt): (r: Result<bool>)
    ensures r.Err? <==> NaNTestOverflows(x, y)
    ensures r.Err? ==> r.error == OverflowError
    ensures r.Ok? ==> (r.value <==> x.NaN? || y.NaN?)
  {
    if x.TooLarge() then Err(OverflowError)
    else if x.IsNaN() then Ok(true)
    else if y.TooLarge() then Err(OverflowError)
    else Ok(y.IsNaN())
  }

  // ---------------------------------------------------------------------------
  // Python's integer `//` and `%` round the quotient towards minus infinity, so the
  // remainder takes the sign of the divisor. Dafny's `/` and `%` are Euclidean (the
  // remainder is never negative); the two agree only for a positive divisor.
  // ---------------------------------------------------------------------------

  function Abs(a: int): nat {
    if a < 0 then -a else a
  }

  /** Python's `a // d` on integers. */
  function FloorDiv(a: int, d: int): int
    requires d != 0
  {
    if d > 0 || a % d == 0 then a / d else a / d - 1
  }

  /** Python's `a % d` on integers. */
  function FloorMod(a: int, d: int): (r: int)
    requires d != 0
    ensures d * FloorDiv(a, d) + r == a
    ensures d > 0 ==> 0 <= r < d
    ensures d < 0 ==> d < r <= 0
  {
    a - d * FloorDiv(a, d)
  }

  /** A non-zero multiple of `d` is at least as large as `d` in absolute value. */
  lemma {:induction false} MultipleAtLeast(d: nat, t: nat)
    requires t >= 1
    ensures d * t >= d
    decreases t
  {
    if t > 1 {
      MultipleAtLeast(d, t - 1);
      assert d * t == d * (t - 1) + d;
    }
  }

  lemma NonZeroMultiple(d: int, t: int)
    requires t != 0
    ensures Abs(d * t) >= Abs(d)
  {
    MultipleAtLeast(Abs(d), Abs(t));
    assert Abs(d * t) == Abs(d) * Abs(t);
  }

  /** The quotient and remainder of floor division are the only ones with those properties. */
  lemma FloorDivModUnique(a: int, d: int, q: int, r: int)
    requires d != 0
    requires d * q + r == a
    requires d > 0 ==> 0 <= r < d
    requires d < 0 ==> d < r <= 0
    ensures q == FloorDiv(a, d) && r == FloorMod(a, d)
  {
    var q0, r0 := FloorDiv(a, d), FloorMod(a, d);
    assert d * (q - q0) == r0 - r;
    if q != q0 {
      NonZeroMultiple(d, q - q0);
    }
  }

  /** `mod(dividend, divisor)` */
  function Mod(dividend: EInt, divisor: EInt): (r: Result<EInt>)
    ensures r.Err? <==> NaNTestOverflows(dividend, divisor) || (dividend.Fin? && divisor == Fin(0))
    ensures r.Err? ==> r.error == if NaNTestOverflows(dividend, divisor) then OverflowError else ZeroDivisionError
  {
    match EitherNaN(dividend, divisor)
    case Err(e) => Err(e)
    case Ok(nan) =>
      if nan then Ok(NaN)
      else if dividend.IsFinite() && divisor.IsFinite() then
        if divisor.n == 0 then Err(ZeroDivisionError) else Ok(Fin(FloorMod(dividend.n, divisor.n)))
      else if dividend.IsInf() then Ok(Fin(0))
      else Ok(dividend)
  }

  /** `divmod_(dividend, divisor)` */
  function DivMod(dividend: EInt, divisor: EInt): (r: Result<(EInt, EInt)>)
    ensures r.Err? <==> NaNTestOverflows(dividend, divisor) || (dividend.Fin? && divisor == Fin(0))
    ensures r.Err? ==> r.error == if NaNTestOverflows(dividend, divisor) then OverflowError else ZeroDivisionError
  {
    match EitherNaN(dividend, divisor)
    case Err(e) => Err(e)
    case Ok(nan) =>
      if nan then Ok((NaN, NaN))
      else if dividend.IsFinite() && divisor.IsFinite() then
        if divisor.n == 0 then Err(ZeroDivisionError)
        else Ok((Fin(FloorDiv(dividend.n, divisor.n)), Fin(FloorMod(dividend.n, divisor.n))))
      else if dividend.IsInf() then
        if divisor.PosInf? || (divisor.Fin? && divisor.n > 0) then Ok((PosInf, Fin(0))) else Ok((NegInf, Fin(0)))
      else Ok((Fin(0), dividend))
  }

  /**
   * `mod` is `nan` as soon as either argument is, unless the dividend, which is tested
   * first, is too large for a float; a `nan` dividend hides a too large divisor.
   */
  lemma ModNaN(dividend: EInt, divisor: EInt)
    requires dividend.NaN? || divisor.NaN?
    ensures Mod(dividend, divisor) == if dividend.TooLarge() then Err(OverflowError) else Ok(NaN)
  {
  }

  /** On finite arguments `mod` is Python's floor modulo: the remainder has the divisor's sign. */
  lemma ModFinite(a: int, d: int)
    ensures !FloatConvertible(a) || !FloatConvertible(d) ==> Mod(Fin(a), Fin(d)) == Err(OverflowError)
    ensures FloatConvertible(a) && FloatConvertible(d) ==> var r := Mod(Fin(a), Fin(d));
      && (d == 0 ==> r == Err(ZeroDivisionError))
      && (d != 0 ==> r.Ok? && r.value.Fin?)
      && (d > 0 ==> 0 <= r.value.n < d)
      && (d < 0 ==> d < r.value.n <= 0)
      && (d != 0 ==> (a - r.value.n) % d == 0)
  {
    if d != 0 {
      var q := FloorDiv(a, d);
      assert a - FloorMod(a, d) == d * q;
      assert (d * q) % d == 0 by { DivisibleProduct(d, q); }
    }
  }

  /**
   * `mod` with an infinite argument, following the `inf` convention, once the finite
   * argument, if any, converts to a float.
   */
  lemma ModInfinite(x: EInt, y: EInt)
    requires !x.NaN? && !y.NaN?
    ensures x.IsInf() ==> Mod(x, y) == if y.TooLarge() then Err(OverflowError) else Ok(Fin(0))
    ensures x.Fin? && y.IsInf() ==> Mod(x, y) == if x.TooLarge() then Err(OverflowError) else Ok(x)
  {
  }

  /** On finite arguments `divmod_` gives the floor quotient and `mod`'s remainder. */
  lemma DivModFinite(a: int, d: int)
    requires d != 0
    ensures DivMod(Fin(a), Fin(d)).Ok? <==> FloatConvertible(a) && FloatConvertible(d)
    ensures DivMod(Fin(a), Fin(d)).Err? ==> DivMod(Fin(a), Fin(d)).error == OverflowError
    ensures DivMod(Fin(a), Fin(d)).Ok? ==> var (q, r) := DivMod(Fin(a), Fin(d)).value;
      q.Fin? && r.Fin? && q.n * d + r.n == a && Ok(r) == Mod(Fin(a), Fin(d))
  {
  }

  /** An infinite dividend gives `(±inf, 0)`, the sign taken from the divisor alone. */
  lemma DivModInfinite(x: EInt, y: EInt)
    requires !x.NaN? && !y.NaN?
    ensures x.IsInf() && y.TooLarge() ==> DivMod(x, y) == Err(OverflowError)
    ensures x.IsInf() && !y.TooLarge() && (y.PosInf? || (y.Fin? && y.n > 0)) ==> DivMod(x, y) == Ok((PosInf, Fin(0)))
    ensures x.IsInf() && !y.TooLarge() && (y.NegInf? || (y.Fin? && y.n <= 0)) ==> DivMod(x, y) == Ok((NegInf, Fin(0)))
    ensures x.Fin? && y.IsInf() ==> DivMod(x, y) == if x.TooLarge() then Err(OverflowError) else Ok((Fin(0), x))
  {
  }

  // ---------------------------------------------------------------------------
  // Greatest common divisor
  // ---------------------------------------------------------------------------

  /** `c` divides `n`. */
  predicate Divides(c: nat, n: int) {
    if c == 0 then n == 0 else n % c == 0
  }

  lemma DivisibleProduct(c: int, q: int)
    requires c != 0
    ensures (c * q) % c == 0
  {
    var r := (c * q) % c;
    var k := (c * q) / c;
    assert c * (q - k) == r;
    if q - k != 0 {
      NonZeroMultiple(c, q - k);
    }
  }

  /** If `c` divides `y` and `m`, it divides `y * q + m`. */
  lemma DividesCombination(c: nat, y: int, q: int, m: int)
    requires c > 0 && y % c == 0 && m % c == 0
    ensures (y * q + m) % c == 0
  {
    var a, b := y / c, m / c;
    assert y == c * a && m == c * b;
    assert y * q + m == c * (a * q + b);
    DivisibleProduct(c, a * q + b);
  }

  /** Euclid's algorithm on natural numbers. */
  function GcdNat(x: nat, y: nat): (r: nat)
    ensures Divides(r, x) && Divides(r, y)
    ensures r == 0 <==> x == 0 && y == 0
    decreases y
  {
    if y == 0 then x
    else
      var r := GcdNat(y, x % y);
      assert x == y * (x / y) + x % y;
      assert r > 0 by { assert y != 0; }
      DividesCombination(r, y, x / y, x % y);
      r
  }

  /** Every common divisor of `x` and `y` divides their gcd. */
  lemma {:induction false} GcdNatGreatest(x: nat, y: nat, c: nat)
    requires c > 0 && x % c == 0 && y % c == 0
    ensures GcdNat(x, y) % c == 0
    decreases y
  {
    if y != 0 {
      assert x % y == x - y * (x / y);
      assert x % y == y * (-(x / y)) + x;
      DividesCombination(c, y, -(x / y), x);
      GcdNatGreatest(y, x % y, c);
    }
  }

  lemma DividesAbs(c: nat, a: int)
    ensures Divides(c, a) <==> Divides(c, Abs(a))
  {
    if c > 0 && a < 0 {
      if a % c == 0 { DividesCombination(c, a, -1, 0); }
      if (-a) % c == 0 { DividesCombination(c, -a, -1, 0); }
    }
  }

  /** `math.gcd(a, b)` on integers: non-negative, and zero only for `gcd(0, 0)`. */
  function MathGcd(a: int, b: int): (r: nat)
    ensures r == 0 <==> a == 0 && b == 0
  {
    GcdNat(Abs(a), Abs(b))
  }

  /** `math.gcd` divides both arguments, and every common divisor divides it. */
  lemma MathGcdIsGreatest(a: int, b: int, c: nat)
    ensures Divides(MathGcd(a, b), a) && Divides(MathGcd(a, b), b)
    ensures c > 0 && a % c == 0 && b % c == 0 ==> MathGcd(a, b) % c == 0
  {
    DividesAbs(MathGcd(a, b), a);
    DividesAbs(MathGcd(a, b), b);
    if c > 0 && a % c == 0 && b % c == 0 {
      DividesAbs(c, a);
      DividesAbs(c, b);
      GcdNatGreatest(Abs(a), Abs(b), c);
    }
  }

  /** `gcd(a, b)` for extended integers. */
  function Gcd(a: EInt, b: EInt): (r: Result<EInt>)
    ensures r.Err? <==> NaNTestOverflows(a, b)
    ensures r.Err? ==> r.error == OverflowError
    ensures r.Ok? && (a.NaN? || b.NaN?) ==> r.value.NaN?
    ensures r.Ok? && a.Fin? && b.Fin? ==> r.value.Fin? && r.value.n >= 0
    ensures r.Ok? && a.IsInf() && !b.NaN? ==> r.value == b
    ensures r.Ok? && a.Fin? && b.IsInf() ==> r.value == a
  {
    match EitherNaN(a, b)
    case Err(e) => Err(e)
    case Ok(nan) =>
      if nan then Ok(NaN)
      else if a.IsFinite() && b.IsFinite() then Ok(Fin(MathGcd(a.n, b.n)))
      else if a.IsInf() then Ok(b)
      else Ok(a)
  }

  /** On finite arguments `gcd` is the greatest common divisor. */
  lemma GcdFinite(a: int, b: int, c: nat)
    ensures Gcd(Fin(a), Fin(b)).Ok? <==> FloatConvertible(a) && FloatConvertible(b)
    ensures Gcd(Fin(a), Fin(b)).Ok? ==> Gcd(Fin(a), Fin(b)).value.Fin?
    ensures Gcd(Fin(a), Fin(b)).Ok? ==> var g := Gcd(Fin(a), Fin(b)).value.n;
      g >= 0 && Divides(g, a) && Divides(g, b) && (c > 0 && a % c == 0 && b % c == 0 ==> g % c == 0)
  {
    MathGcdIsGreatest(a, b, c);
  }

  // ---------------------------------------------------------------------------
  // Modular inverse
  // ---------------------------------------------------------------------------

  /**
   * `invert(x, m)`. The finite, non-unit-modulus case is delegated to `gmpy2.invert`,
   * which is not part of this model: it is the parameter `gmpyInvert`.
   */
  function Invert(x: EInt, m: EInt, gmpyInvert: (int, int) -> Result<int>): (r: Result<EInt>)
    ensures NaNTestOverflows(x, m) ==> r == Err(OverflowError)
    ensures !NaNTestOverflows(x, m) && (x.NaN? || m.NaN?) ==> r == Ok(NaN)
    ensures !NaNTestOverflows(x, m) && !x.NaN? && !m.NaN? && m.IsUnit() ==> r == Ok(Fin(0))
  {
    match EitherNaN(x, m)
    case Err(e) => Err(e)
    case Ok(nan) =>
      if nan then Ok(NaN)
      else if m.IsUnit() then Ok(Fin(0))
      else if x.IsFinite() && m.IsFinite() then
        match gmpyInvert(x.n, m.n)
        case Ok(y) => Ok(Fin(y))
        case Err(e) => Err(e)
      else if x.IsUnit() then Ok(x)
      else Err(ZeroDivisionError)
  }

  /** With an infinite argument and a modulus other than ±1 only ±1 is invertible (to itself). */
  lemma InvertInfinite(x: EInt, m: EInt, gmpyInvert: (int, int) -> Result<int>)
    requires !x.NaN? && !m.NaN? && !m.IsUnit()
    requires x.IsInf() || m.IsInf()
    ensures x.TooLarge() || m.TooLarge() ==> Invert(x, m, gmpyInvert) == Err(OverflowError)
    ensures !x.TooLarge() && !m.TooLarge() ==>
      && (x.IsUnit() ==> Invert(x, m, gmpyInvert) == Ok(x))
      && (!x.IsUnit() ==> Invert(x, m, gmpyInvert) == Err(ZeroDivisionError))
    ensures Invert(x, m, gmpyInvert).Ok? <==> x.IsUnit()
  {
  }

  /**
   * An `int` too large for a float makes all four functions raise `OverflowError` in their
   * first test when it comes first, and also when it comes second after anything but `nan`.
   */
  lemma TooLargeOverflows(n: int, y: EInt, gmpyInvert: (int, int) -> Result<int>)
    requires !FloatConvertible(n)
    ensures Mod(Fin(n), y) == Err(OverflowError) && DivMod(Fin(n), y) == Err(OverflowError)
    ensures Gcd(Fin(n), y) == Err(OverflowError) && Invert(Fin(n), y, gmpyInvert) == Err(OverflowError)
    ensures Mod(y, Fin(n)) == if y.NaN? then Ok(NaN) else Err(OverflowError)
    ensures Gcd(y, Fin(n)) == if y.NaN? then Ok(NaN) else Err(OverflowError)
  {
  }

  // ---------------------------------------------------------------------------
  // Construction
  // ---------------------------------------------------------------------------

  /** A Python float: finite (a real number), `±inf` or `nan`. */
  datatype Float = Finite(x: real) | Infinity(negative: bool) | FloatNaN

  /** A Python number passed to the `ExtendedInt` constructor. */
  datatype Number = IntValue(i: int) | FloatValue(f: Float)

  /** `int(x)` of a real: truncation towards zero. */
  function Trunc(x: real): (r: int)
    ensures 0.0 <= x ==> r as real <= x < r as real + 1.0
    ensures x < 0.0 ==> r as real - 1.0 < x <= r as real
  {
    if x >= 0.0 then x.Floor else -((-x).Floor)
  }

  /** Python's `int(value)`: overflow for infinities, a value error for `nan`. */
  function PyInt(value: Number): Result<int> {
    match value
    case IntValue(i) => Ok(i)
    case FloatValue(Finite(x)) => Ok(Trunc(x))
    case FloatValue(Infinity(_)) => Err(OverflowError)
    case FloatValue(FloatNaN) => Err(ValueError)
  }

  /** Python's `float(value)` of a value whose `int` conversion failed. */
  function PyFloat(value: Number): (r: EInt)
    requires PyInt(value).Err?
  {
    match value
    case FloatValue(Infinity(negative)) => if negative then NegInf else PosInf
    case FloatValue(FloatNaN) => NaN
  }

  /** The `value` that `ExtendedInt(value).__init__` stores. */
  function ExtendedInt(value: Number): (e: EInt)
    ensures e.Fin? <==> PyInt(value).Ok?
    ensures e.Fin? ==> e.n == PyInt(value).value
  {
    match PyInt(value)
    case Ok(i) => Fin(i)
    case Err(_) => PyFloat(value)
  }

  /** Every finite extended integer holds an integer, and only floats become non-finite. */
  lemma ExtendedIntKinds(value: Number)
    ensures value.IntValue? ==> ExtendedInt(value) == Fin(value.i)
    ensures value.FloatValue? && value.f.Finite? ==> ExtendedInt(value) == Fin(Trunc(value.f.x))
    ensures value == FloatValue(Infinity(false)) ==> ExtendedInt(value) == PosInf
    ensures value == FloatValue(Infinity(true)) ==> ExtendedInt(value) == NegInf
    ensures value == FloatValue(FloatNaN) ==> ExtendedInt(value) == NaN
  {
  }
}
