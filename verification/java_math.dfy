/** Java numeric and library behaviour the view code relies on, stated over
    Dafny's unbounded integers and reals: `Math.round`, `Math.min`, int
    division that truncates toward zero, `(int)` casts of doubles, IEEE
    division by zero, and the square root used by `Math.sqrt`/`Math.hypot`. */
module JavaMath {

  datatype Option<T> = None | Some(value: T)

  /** Concatenation regrouped; stated on its own so that proofs about long
      sequences need not rediscover it. */
  lemma Associative<T>(a: seq<T>, b: seq<T>, c: seq<T>)
    ensures a + b + c == a + (b + c)
  {
  }

  /** Dropping the head of a non-empty list commutes with appending at its end. */
  lemma DropFirstOfSnoc<T>(s: seq<T>, x: T)
    requires 0 < |s|
    ensures (s + [x])[0] == s[0] && (s + [x])[1..] == s[1..] + [x]
  {
  }

  function Min(a: int, b: int): (r: int)
    ensures r <= a && r <= b && (r == a || r == b)
  {
    if a <= b then a else b
  }

  function Max(a: real, b: real): (r: real)
    ensures a <= r && b <= r && (r == a || r == b)
  {
    if a >= b then a else b
  }

  function Abs(a: int): nat
  {
    if a < 0 then -a else a
  }

  /** `Math.round(float)`: the closest int, ties rounded up. */
  function Round(x: real): (r: int)
    ensures x - 0.5 < r as real <= x + 0.5
  {
    (x + 0.5).Floor
  }

  lemma RoundOfInteger(n: int)
    ensures Round(n as real) == n
  {
  }

  /** Java's `a / 2` on ints: the half truncated toward zero. */
  function HalfTowardZero(a: int): (q: int)
    ensures 0 <= a ==> 0 <= q && 2 * q <= a <= 2 * q + 1
    ensures a < 0 ==> q <= 0 && 2 * q - 1 <= a <= 2 * q
  {
    if a >= 0 then a / 2 else -((-a) / 2)
  }

  /** Truncation agrees with Dafny's Euclidean division except on a negative
      odd dividend, where it is one larger. */
  lemma HalfTowardZeroVersusEuclidean(a: int)
    ensures 0 <= a || a % 2 == 0 ==> HalfTowardZero(a) == a / 2
    ensures a < 0 && a % 2 == 1 ==> HalfTowardZero(a) == a / 2 + 1
  {
  }

  /** A Java `(int)` cast of a finite double: truncation toward zero
      (saturation at the int range is not modelled). */
  function TruncToInt(x: real): (r: int)
    ensures 0.0 <= x ==> 0 <= r && r as real <= x < r as real + 1.0
    ensures x < 0.0 ==> r <= 0 && r as real - 1.0 < x <= r as real
  {
    if x >= 0.0 then x.Floor else -((-x).Floor)
  }

  function Square(r: real): (s: real)
    ensures 0.0 <= s
  {
    r * r
  }

  ghost predicate IsSqrt(x: real, r: real)
  {
    0.0 <= r && Square(r) == x
  }

  /** The non-negative square root. Dafny's reals cannot exhibit a root of an
      arbitrary non-negative number, so the choice falls back to `x` itself
      when none can be exhibited; every property the model uses (non-negative,
      zero exactly at zero, a root whenever one exists) holds in both branches. */
  ghost function Sqrt(x: real): (r: real)
    requires 0.0 <= x
    ensures 0.0 <= r
    ensures r == 0.0 <==> x == 0.0
    ensures (exists s :: IsSqrt(x, s)) ==> IsSqrt(x, r)
  {
    if exists s :: IsSqrt(x, s) then
      var s :| IsSqrt(x, s);
      RootOfZero(x, s);
      s
    else
      x
  }

  lemma RootOfZero(x: real, s: real)
    requires IsSqrt(x, s)
    ensures s == 0.0 <==> x == 0.0
  {
    if x == 0.0 {
      assert 0.0 * 0.0 == 0.0;
      SquareInjective(s, 0.0);
    }
  }

  /** A perfect square has its exact root. */
  lemma SqrtOfSquare(a: real)
    ensures Sqrt(Square(a)) == if a < 0.0 then -a else a
  {
    var m := if a < 0.0 then -a else a;
    assert IsSqrt(Square(a), m);
    var r := Sqrt(Square(a));
    assert IsSqrt(Square(a), r);
    SquareInjective(r, m);
  }

  lemma PositiveProduct(a: real, b: real)
    requires 0.0 < a && 0.0 < b
    ensures 0.0 < a * b
  {
  }

  lemma SquareInjective(r: real, s: real)
    requires 0.0 <= r && 0.0 <= s && r * r == s * s
    ensures r == s
  {
    if r != s {
      assert (r - s) * (r + s) == r * r - s * s;
      if r < s {
        PositiveProduct(s - r, r + s);
      } else {
        PositiveProduct(r - s, r + s);
      }
    }
  }

  lemma SquareZero(r: real)
    ensures Square(r) == 0.0 <==> r == 0.0
  {
    assert 0.0 * 0.0 == 0.0;
    if Square(r) == 0.0 {
      if r >= 0.0 {
        SquareInjective(r, 0.0);
      } else {
        assert Square(-r) == Square(r);
        SquareInjective(-r, 0.0);
      }
    }
  }

  /** A Java float quotient of two finite values, division by zero included. */
  datatype FloatValue = Finite(value: real) | PositiveInfinity | NegativeInfinity | NaN

  function Divide(n: real, d: real): (r: FloatValue)
    ensures r.Finite? <==> d != 0.0
    ensures r.Finite? ==> r.value * d == n
    ensures d == 0.0 ==> (r.NaN? <==> n == 0.0)
    ensures d == 0.0 ==> (r.PositiveInfinity? <==> n > 0.0)
    ensures d == 0.0 ==> (r.NegativeInfinity? <==> n < 0.0)
  {
    if d != 0.0 then Finite(n / d)
    else if n > 0.0 then PositiveInfinity
    else if n < 0.0 then NegativeInfinity
    else NaN
  }
}
