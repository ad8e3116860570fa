/**
 Exact complex arithmetic: the number type of `external/fft/Dif_fft.c` with
 `real` components in place of `float`, so that no rounding takes place.
 */
module ComplexField {

  datatype Complex = Complex(re: real, im: real)

  const ZERO := Complex(0.0, 0.0)
  const ONE := Complex(1.0, 0.0)
  const MINUS_ONE := Complex(-1.0, 0.0)

  function Add(a: Complex, b: Complex): Complex {
    Complex(a.re + b.re, a.im + b.im)
  }

  function Sub(a: Complex, b: Complex): Complex {
    Complex(a.re - b.re, a.im - b.im)
  }

  function Mul(a: Complex, b: Complex): Complex {
    Complex(a.re * b.re - a.im * b.im, a.re * b.im + a.im * b.re)
  }

  function Pow(w: Complex, n: nat): Complex {
    if n == 0 then ONE else Mul(w, Pow(w, n - 1))
  }

  lemma MulOne(a: Complex)
    ensures Mul(a, ONE) == a && Mul(ONE, a) == a
  {
  }

  lemma MulMinusOne(a: Complex, b: Complex)
    ensures Add(a, Mul(b, MINUS_ONE)) == Sub(a, b)
  {
  }

  lemma MulMinusOnes()
    ensures Mul(MINUS_ONE, ONE) == MINUS_ONE && Mul(MINUS_ONE, MINUS_ONE) == ONE
  {
  }

  lemma MulAssociates(a: Complex, b: Complex, c: Complex)
    ensures Mul(Mul(a, b), c) == Mul(a, Mul(b, c))
  {
  }

  lemma MulDistributes(a: Complex, b: Complex, c: Complex)
    ensures Mul(Add(a, b), c) == Add(Mul(a, c), Mul(b, c))
    ensures Mul(Sub(a, b), c) == Sub(Mul(a, c), Mul(b, c))
  {
    assert (a.re + b.re) * c.re == a.re * c.re + b.re * c.re && (a.im + b.im) * c.im == a.im * c.im + b.im * c.im;
    assert (a.re + b.re) * c.im == a.re * c.im + b.re * c.im && (a.im + b.im) * c.re == a.im * c.re + b.im * c.re;
    assert (a.re - b.re) * c.re == a.re * c.re - b.re * c.re && (a.im - b.im) * c.im == a.im * c.im - b.im * c.im;
    assert (a.re - b.re) * c.im == a.re * c.im - b.re * c.im && (a.im - b.im) * c.re == a.im * c.re - b.im * c.re;
  }

  /** Multiplication by the powers of -i turns by quarters. */
  lemma QuarterTurns(a: Complex)
    ensures Mul(a, Complex(1.0, 0.0)) == a && Mul(a, Complex(0.0, -1.0)) == Complex(a.im, -a.re)
    ensures Mul(a, Complex(-1.0, 0.0)) == Complex(-a.re, -a.im) && Mul(a, Complex(0.0, 1.0)) == Complex(-a.im, a.re)
  {
  }

  /** The square of -i is -1. */
  lemma SquareOfMinusI()
    ensures Mul(Complex(0.0, -1.0), Complex(0.0, -1.0)) == MINUS_ONE
  {
    QuarterTurns(Complex(0.0, -1.0));
  }

  function SquaredLength(a: Complex): real {
    a.re * a.re + a.im * a.im
  }

  /** Lengths multiply. */
  lemma LengthOfProduct(a: Complex, b: Complex)
    ensures SquaredLength(Mul(a, b)) == SquaredLength(a) * SquaredLength(b)
  {
    var x, y, z, t := a.re * b.re, a.im * b.im, a.re * b.im, a.im * b.re;
    Squares(x, y);
    Squares(z, t);
    CrossTerms(a.re, a.im, b.re, b.im);
    hide *;
    assert Mul(a, b) == Complex(x - y, z + t) by {
      MulParts(a, b);
    }
    LengthParts(a);
    LengthParts(b);
    LengthParts(Complex(x - y, z + t));
    assert SquaredLength(Mul(a, b)) == x * x + y * y + z * z + t * t;
  }

  lemma MulParts(a: Complex, b: Complex)
    ensures Mul(a, b) == Complex(a.re * b.re - a.im * b.im, a.re * b.im + a.im * b.re)
  {
  }

  lemma LengthParts(a: Complex)
    ensures SquaredLength(a) == a.re * a.re + a.im * a.im
  {
  }

  lemma Squares(x: real, y: real)
    ensures (x - y) * (x - y) == x * x - 2.0 * (x * y) + y * y
    ensures (x + y) * (x + y) == x * x + 2.0 * (x * y) + y * y
  {
  }

  lemma CrossTerms(p: real, q: real, u: real, v: real)
    ensures (p * u) * (q * v) == (p * v) * (q * u)
    ensures (p * u) * (p * u) + (q * v) * (q * v) + (p * v) * (p * v) + (q * u) * (q * u) == (p * p + q * q) * (u * u + v * v)
  {
    Product(p, u);
    Product(q, v);
    Product(p, v);
    Product(q, u);
    var a, b, c, d := p * p, q * q, u * u, v * v;
    assert (a + b) * (c + d) == a * c + b * d + a * d + b * c;
    FourFactors(p, u, q, v);
  }

  lemma Product(x: real, y: real)
    ensures (x * y) * (x * y) == (x * x) * (y * y)
  {
  }

  lemma FourFactors(p: real, u: real, q: real, v: real)
    ensures (p * u) * (q * v) == (p * v) * (q * u)
  {
  }

  /** Exponents add. */
  lemma {:induction false} PowAdd(w: Complex, m: nat, n: nat)
    ensures Pow(w, m + n) == Mul(Pow(w, m), Pow(w, n))
  {
    if m == 0 {
      MulOne(Pow(w, n));
    } else {
      PowAdd(w, m - 1, n);
      MulAssociates(w, Pow(w, m - 1), Pow(w, n));
    }
  }

  /** Exponents multiply. */
  lemma {:induction false} PowPow(w: Complex, m: nat, n: nat)
    ensures Pow(Pow(w, m), n) == Pow(w, m * n)
  {
    hide Mul;
    if n == 0 {
    } else {
      PowPow(w, m, n - 1);
      PowAdd(w, m, m * (n - 1));
      assert m * n == m + m * (n - 1);
    }
  }
}
