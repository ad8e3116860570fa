/**
 The discrete Fourier transform by its definition, and the decimation-in-frequency
 step that the butterfly stages of `DIF_FFT` rely on.
 */
module Dft {
  import opened Arithmetic
  import opened ComplexField

  /** The first `n` terms of the sum that defines output `k`: x[i] * w^(i*k). */
  function PartialDft(x: seq<Complex>, w: Complex, k: nat, n: nat): Complex
    requires n <= |x|
  {
    if n == 0 then ZERO
    else Add(PartialDft(x, w, k, n - 1), Mul(x[n - 1], Pow(w, (n - 1) * k)))
  }

  /** Output `k` of the transform of `x` with root `w`. */
  function Transform(x: seq<Complex>, w: Complex, k: nat): Complex {
    PartialDft(x, w, k, |x|)
  }

  /** Sums of the two halves: the upper outputs of one butterfly stage on one block. */
  function Sums(x: seq<Complex>, half: nat): (u: seq<Complex>)
    requires |x| == 2 * half
    ensures |u| == half
  {
    seq(half, n requires 0 <= n < half => Add(x[n], x[n + half]))
  }

  /** Twiddled differences of the two halves: the lower outputs of one stage on one block. */
  function Differences(x: seq<Complex>, half: nat, w: Complex): (v: seq<Complex>)
    requires |x| == 2 * half
    ensures |v| == half
  {
    seq(half, n requires 0 <= n < half => Mul(Sub(x[n], x[n + half]), Pow(w, n)))
  }

  lemma SumsAt(x: seq<Complex>, half: nat, n: nat)
    requires |x| == 2 * half && n < half
    ensures Sums(x, half)[n] == Add(x[n], x[n + half])
  {
  }

  /** The second half of the sum, pulled out of the whole. */
  function Tail(x: seq<Complex>, w: Complex, k: nat, half: nat, n: nat): Complex
    requires half + n <= |x|
  {
    if n == 0 then ZERO
    else Add(Tail(x, w, k, half, n - 1), Mul(x[half + n - 1], Pow(w, (half + n - 1) * k)))
  }

  lemma {:induction false} SplitSum(x: seq<Complex>, w: Complex, k: nat, half: nat, n: nat)
    requires half + n <= |x|
    ensures PartialDft(x, w, k, half + n) == Add(PartialDft(x, w, k, half), Tail(x, w, k, half, n))
  {
    hide Mul, Pow;
    if n > 0 {
      SplitSum(x, w, k, half, n - 1);
    }
  }

  /** When w^half is -1, w^(half*k) is 1 for even k and -1 for odd k. */
  lemma {:induction false} HalfTurn(w: Complex, half: nat, k: nat)
    requires Pow(w, half) == MINUS_ONE
    ensures Pow(w, half * k) == if k % 2 == 0 then ONE else MINUS_ONE
  {
    hide Mul;
    if k == 0 {
      assert half * k == 0;
    } else {
      HalfTurn(w, half, k - 1);
      assert half * k == half + half * (k - 1);
      PowAdd(w, half, half * (k - 1));
      MulMinusOnes();
    }
  }

  lemma SplitExponent(w: Complex, half: nat, i: nat, k: nat)
    requires Pow(w, half) == MINUS_ONE
    ensures i * k >= 0 && (half + i) * k >= 0
    ensures Pow(w, (half + i) * k) == Mul(if k % 2 == 0 then ONE else MINUS_ONE, Pow(w, i * k))
  {
    hide Mul, Pow;
    Distribute(half, i, k);
    PowAdd(w, half * k, i * k);
    HalfTurn(w, half, k);
  }

  /** One term of the second half in terms of the matching exponent of the first half. */
  lemma TailTerm(y: Complex, w: Complex, half: nat, i: nat, k: nat)
    requires Pow(w, half) == MINUS_ONE
    ensures Mul(y, Pow(w, (half + i) * k))
         == if k % 2 == 0 then Mul(y, Pow(w, i * k)) else Mul(Mul(y, MINUS_ONE), Pow(w, i * k))
  {
    hide Mul, Pow;
    SplitExponent(w, half, i, k);
    var e := Pow(w, i * k);
    MulOne(e);
    MulAssociates(y, MINUS_ONE, e);
  }

  /** Even outputs: the terms i and half + i merge into one term of the half-size transform. */
  lemma {:induction false} EvenSums(x: seq<Complex>, w: Complex, half: nat, k: nat, n: nat)
    requires |x| == 2 * half && n <= half && Pow(w, half) == MINUS_ONE
    ensures Add(PartialDft(x, w, 2 * k, n), Tail(x, w, 2 * k, half, n))
         == PartialDft(Sums(x, half), Mul(w, w), k, n)
  {
    hide Mul, Pow, Sums;
    if n > 0 {
      var i := n - 1;
      assert Sums(x, half)[i] == Add(x[i], x[i + half]) by {
        SumsAt(x, half, i);
      }
      EvenSums(x, w, half, k, i);
      TailTerm(x[half + i], w, half, i, 2 * k);
      SquaredRoot(w, i * k);
      Distribute(i, 0, k);
      MulDistributes(x[i], x[i + half], Pow(w, 2 * (i * k)));
    }
  }

  /** Odd outputs: the difference picks up the extra factor w^i that the stage multiplies in. */
  lemma {:induction false} OddDifferences(x: seq<Complex>, w: Complex, half: nat, k: nat, n: nat)
    requires |x| == 2 * half && n <= half && Pow(w, half) == MINUS_ONE
    ensures Add(PartialDft(x, w, 2 * k + 1, n), Tail(x, w, 2 * k + 1, half, n))
         == PartialDft(Differences(x, half, w), Mul(w, w), k, n)
  {
    hide Mul, Pow;
    if n > 0 {
      var i := n - 1;
      OddDifferences(x, w, half, k, i);
      TailTerm(x[half + i], w, half, i, 2 * k + 1);
      OddTerm(x[i], x[i + half], w, i, k);
    }
  }

  lemma SquaredRoot(w: Complex, n: nat)
    ensures Pow(Mul(w, w), n) == Pow(w, 2 * n)
  {
    PowPow(w, 2, n);
    assert Pow(w, 2) == Mul(w, Mul(w, Pow(w, 0)));
    MulOne(w);
  }

  lemma OddTerm(a: Complex, b: Complex, w: Complex, i: nat, k: nat)
    ensures Add(Mul(a, Pow(w, i * (2 * k + 1))), Mul(Mul(b, MINUS_ONE), Pow(w, i * (2 * k + 1))))
         == Mul(Mul(Sub(a, b), Pow(w, i)), Pow(Mul(w, w), i * k))
  {
    hide Pow, Mul;
    var e := i * (2 * k + 1);
    assert e == i + 2 * (i * k);
    PowAdd(w, i, 2 * (i * k));
    SquaredRoot(w, i * k);
    MulDistributes(a, Mul(b, MINUS_ONE), Pow(w, e));
    MulMinusOne(a, b);
    MulAssociates(Sub(a, b), Pow(w, i), Pow(w, 2 * (i * k)));
  }

  /**
   Decimation in frequency: with w^half == -1, the even outputs of the transform of `x` are the
   transform of the sums, and the odd outputs the transform of the twiddled differences, both
   of half the size and with root w*w.
   */
  lemma DecimationInFrequency(x: seq<Complex>, w: Complex, half: nat, k: nat)
    requires |x| == 2 * half && Pow(w, half) == MINUS_ONE
    ensures Transform(x, w, 2 * k) == Transform(Sums(x, half), Mul(w, w), k)
    ensures Transform(x, w, 2 * k + 1) == Transform(Differences(x, half, w), Mul(w, w), k)
  {
    hide Mul, Pow, Sums, Differences;
    SplitSum(x, w, 2 * k, half, half);
    EvenSums(x, w, half, k, half);
    SplitSum(x, w, 2 * k + 1, half, half);
    OddDifferences(x, w, half, k, half);
  }
}
