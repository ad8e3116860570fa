/**
 `DIF_FFT`: the in-place radix-2 decimation-in-frequency transform.

 The twiddle step of a stage, (cos(PI/LE1), -sin(PI/LE1)) in the source, is `step(LE1)`. Two
 facts about the cosine and sine are all that is asked of it: its value at PI, and the
 double-angle identity.
 */
module DifFft {
  import opened ComplexField
  import opened Dft
  import opened BitReversal
  import opened Arithmetic

  ghost predicate DoubleAngle(step: nat -> Complex, l: nat) {
    Mul(step(2 * l), step(2 * l)) == step(l)
  }

  ghost predicate Twiddles(step: nat -> Complex) {
    && step(1) == MINUS_ONE
    && forall l: nat :: l > 0 ==> DoubleAngle(step, l)
  }

  /**
   The twiddles of the source are fit: cosine and sine of PI/l, given by their values at PI and their
   double-angle formulas, make a step of (cos, -sin).
   */
  lemma SourceTwiddles(step: nat -> Complex, cosine: nat -> real, sine: nat -> real)
    requires forall l: nat :: step(l) == Complex(cosine(l), -sine(l))
    requires cosine(1) == -1.0 && sine(1) == 0.0
    requires forall l: nat :: l > 0 ==> cosine(l) == cosine(2 * l) * cosine(2 * l) - sine(2 * l) * sine(2 * l)
    requires forall l: nat :: l > 0 ==> sine(l) == 2.0 * (sine(2 * l) * cosine(2 * l))
    ensures Twiddles(step)
  {
    forall l: nat | l > 0
      ensures DoubleAngle(step, l)
    {
      HalfAngle(cosine(2 * l), sine(2 * l));
    }
  }

  lemma HalfAngle(c: real, s: real)
    ensures Mul(Complex(c, -s), Complex(c, -s)) == Complex(c * c - s * s, -(2.0 * (s * c)))
  {
  }

  /** The root of unity of a transform of size `n`: e^(-2*PI*i/n). */
  function Root(step: nat -> Complex, n: nat): Complex {
    if n <= 1 then ONE else step(n / 2)
  }

  lemma {:induction false} HalfTurnOfStep(step: nat -> Complex, e: nat)
    requires Twiddles(step)
    ensures Pow(step(Pow2(e)), Pow2(e)) == MINUS_ONE
  {
    hide Mul;
    var l := Pow2(e);
    if e == 0 {
      MulOne(step(1));
      assert Pow(step(1), 1) == Mul(step(1), Pow(step(1), 0));
    } else {
      var m := Pow2(e - 1);
      HalfTurnOfStep(step, e - 1);
      assert DoubleAngle(step, m);
      SquaredRoot(step(l), m);
    }
  }

  lemma SquareOfRoot(step: nat -> Complex, e: nat)
    requires Twiddles(step)
    ensures Mul(step(Pow2(e)), step(Pow2(e))) == Root(step, Pow2(e))
  {
    if e == 0 {
      MulMinusOnes();
    } else {
      assert DoubleAngle(step, Pow2(e - 1));
    }
  }

  /** With the twiddle (0, -1) of a quarter turn, output 1 of four points is x[0] - i*x[1] - x[2] + i*x[3]. */
  lemma FourPoints(x: seq<Complex>, step: nat -> Complex)
    requires |x| == 4 && step(2) == Complex(0.0, -1.0)
    ensures Transform(x, Root(step, 4), 1)
         == Complex(x[0].re + x[1].im - x[2].re - x[3].im, x[0].im - x[1].re - x[2].im + x[3].re)
  {
    var w := Complex(0.0, -1.0);
    hide Mul, Pow, PartialDft;
    FirstPowers();
    NextTerm(x, w, 0);
    NextTerm(x, w, 1);
    NextTerm(x, w, 2);
    NextTerm(x, w, 3);
    NoTerm(x, w);
    QuarterTurns(x[0]);
    QuarterTurns(x[1]);
    QuarterTurns(x[2]);
    QuarterTurns(x[3]);
  }

  lemma NextTerm(x: seq<Complex>, w: Complex, n: nat)
    requires n < |x|
    ensures PartialDft(x, w, 1, n + 1) == Add(PartialDft(x, w, 1, n), Mul(x[n], Pow(w, n)))
  {
    hide Mul, Pow;
  }

  lemma NoTerm(x: seq<Complex>, w: Complex)
    ensures PartialDft(x, w, 1, 0) == ZERO
  {
  }

  lemma FirstPowers()
    ensures var w := Complex(0.0, -1.0);
            && Pow(w, 0) == Complex(1.0, 0.0) && Pow(w, 1) == w
            && Pow(w, 2) == Complex(-1.0, 0.0) && Pow(w, 3) == Complex(0.0, 1.0)
  {
    hide Mul;
    var w := Complex(0.0, -1.0);
    QuarterTurns(w);
    assert Pow(w, 1) == Mul(w, Pow(w, 0));
    assert Pow(w, 2) == Mul(w, Pow(w, 1));
    assert Pow(w, 3) == Mul(w, Pow(w, 2));
  }

  /** The butterfly stages on one block of size 2^e, without the final reordering. */
  function Stages(x: seq<Complex>, e: nat, step: nat -> Complex): (y: seq<Complex>)
    requires |x| == Pow2(e)
    ensures |y| == |x|
    decreases e
  {
    if e == 0 then x
    else
      var half := Pow2(e - 1);
      Stages(Sums(x, half), e - 1, step) + Stages(Differences(x, half, step(half)), e - 1, step)
  }

  /** A transform of the sums is an output of the whole transform with an even number, and so on. */
  lemma HalfOutputs(x: seq<Complex>, e: nat, step: nat -> Complex, b: nat)
    requires e > 0 && |x| == Pow2(e) && Twiddles(step) && b < Pow2(e - 1)
    ensures var half := Pow2(e - 1);
            && |x| == 2 * half && b + half < Pow2(e)
            && Transform(Sums(x, half), Root(step, half), Reverse(e - 1, b))
               == Transform(x, Root(step, Pow2(e)), Reverse(e, b))
            && Transform(Differences(x, half, step(half)), Root(step, half), Reverse(e - 1, b))
               == Transform(x, Root(step, Pow2(e)), Reverse(e, b + half))
  {
    hide Mul, Transform, Sums, Differences, Reverse, Root;
    HalfSize(e);
    HalfTurnOfStep(step, e - 1);
    SquareOfRoot(step, e - 1);
    RootOfDouble(step, e);
    ReverseTopBit(e, b);
    DecimationInFrequency(x, step(Pow2(e - 1)), Pow2(e - 1), Reverse(e - 1, b));
  }

  /** The stages leave output Reverse(b) of the transform at place b. */
  lemma {:induction false} StagesAreTransform(x: seq<Complex>, e: nat, step: nat -> Complex, b: nat)
    requires |x| == Pow2(e) && Twiddles(step) && b < |x|
    ensures Stages(x, e, step)[b] == Transform(x, Root(step, Pow2(e)), Reverse(e, b))
    decreases e
  {
    if e == 0 {
      hide Transform;
      SingleTransform(x, Root(step, 1));
    } else {
      hide Transform, Sums, Differences, Reverse, Root, Pow2;
      var half := Pow2(e - 1);
      HalfSize(e);
      if b < half {
        StagesAreTransform(Sums(x, half), e - 1, step, b);
        HalfOutputs(x, e, step, b);
      } else {
        StagesAreTransform(Differences(x, half, step(half)), e - 1, step, b - half);
        HalfOutputs(x, e, step, b - half);
      }
    }
  }

  lemma RootOfDouble(step: nat -> Complex, e: nat)
    requires e > 0
    ensures Root(step, Pow2(e)) == step(Pow2(e - 1))
  {
  }

  lemma SingleTransform(x: seq<Complex>, w: Complex)
    requires |x| == 1
    ensures Transform(x, w, 0) == x[0]
  {
    assert PartialDft(x, w, 0, 0) == ZERO;
    assert Pow(w, 0) == ONE;
    MulOne(x[0]);
  }

  /** `q` blocks of size 2^e, each put through all its remaining stages. */
  function StagesOfBlocks(x: seq<Complex>, e: nat, q: nat, step: nat -> Complex): (y: seq<Complex>)
    requires |x| == q * Pow2(e)
    ensures |y| == |x|
    decreases q
  {
    if q == 0 then x
    else
      var size := Pow2(e);
      FrontBlock(q, size);
      Stages(x[..size], e, step) + StagesOfBlocks(x[size..], e, q - 1, step)
  }

  /** `q` blocks of size 2^e, each put through a single stage, which halves the block size. */
  function OneStage(x: seq<Complex>, e: nat, q: nat, step: nat -> Complex): (y: seq<Complex>)
    requires e > 0 && |x| == q * Pow2(e)
    ensures |y| == |x| == 2 * q * Pow2(e - 1)
    decreases q
  {
    var size, half := Pow2(e), Pow2(e - 1);
    assert q * size == 2 * q * half;
    if q == 0 then x
    else
      FrontBlock(q, size);
      Sums(x[..size], half) + Differences(x[..size], half, step(half)) + OneStage(x[size..], e, q - 1, step)
  }

  lemma {:induction false} SplitFront(x: seq<Complex>, y: seq<Complex>, e: nat, q: nat, step: nat -> Complex)
    requires |x| == Pow2(e) && |y| == q * Pow2(e)
    ensures |x + y| == (q + 1) * Pow2(e)
    ensures StagesOfBlocks(x + y, e, q + 1, step) == Stages(x, e, step) + StagesOfBlocks(y, e, q, step)
  {
    var size := Pow2(e);
    assert (q + 1) * size == size + q * size;
    assert (x + y)[..size] == x && (x + y)[size..] == y;
  }

  lemma {:induction false} OneStageFront(x: seq<Complex>, y: seq<Complex>, e: nat, q: nat, step: nat -> Complex)
    requires e > 0 && |x| == Pow2(e) && |y| == q * Pow2(e)
    ensures |x + y| == (q + 1) * Pow2(e)
    ensures OneStage(x + y, e, q + 1, step)
         == Sums(x, Pow2(e - 1)) + Differences(x, Pow2(e - 1), step(Pow2(e - 1))) + OneStage(y, e, q, step)
  {
    hide Sums, Differences;
    var size := Pow2(e);
    assert (q + 1) * size == size + q * size;
    assert (x + y)[..size] == x && (x + y)[size..] == y;
  }

  /** Doing one stage on every block does not change where the remaining stages end up. */
  lemma {:induction false} OneStageThenRest(x: seq<Complex>, e: nat, q: nat, step: nat -> Complex)
    requires e > 0 && |x| == q * Pow2(e)
    ensures |OneStage(x, e, q, step)| == 2 * q * Pow2(e - 1)
    ensures StagesOfBlocks(OneStage(x, e, q, step), e - 1, 2 * q, step) == StagesOfBlocks(x, e, q, step)
    decreases q
  {
    hide Sums, Differences, Stages, Pow2;
    if q == 0 {
    } else {
      hide StagesOfBlocks, OneStage;
      var size, half := Pow2(e), Pow2(e - 1);
      FrontBlock(q, size);
      var first, rest := x[..size], x[size..];
      assert x == first + rest;
      OneStageThenRest(rest, e, q - 1, step);
      OneStageFront(first, rest, e, q - 1, step);
      HalfSize(e);
      PrependBlock(Sums(first, half), Differences(first, half, step(half)), OneStage(rest, e, q - 1, step),
                   first, rest, e, q - 1, step);
    }
  }

  lemma HalfSize(e: nat)
    requires e > 0
    ensures Pow2(e) == 2 * Pow2(e - 1)
  {
  }

  lemma PrependBlock(u: seq<Complex>, v: seq<Complex>, y: seq<Complex>, first: seq<Complex>, rest: seq<Complex>,
                     e: nat, q: nat, step: nat -> Complex)
    requires e > 0 && |u| == |v| == Pow2(e - 1) && |first| == Pow2(e)
    requires |y| == 2 * q * Pow2(e - 1) && |rest| == q * Pow2(e)
    requires u == Sums(first, Pow2(e - 1)) && v == Differences(first, Pow2(e - 1), step(Pow2(e - 1)))
    requires StagesOfBlocks(y, e - 1, 2 * q, step) == StagesOfBlocks(rest, e, q, step)
    ensures |u + v + y| == 2 * (q + 1) * Pow2(e - 1) && |first + rest| == (q + 1) * Pow2(e)
    ensures StagesOfBlocks(u + v + y, e - 1, 2 * (q + 1), step) == StagesOfBlocks(first + rest, e, q + 1, step)
  {
    hide Sums, Differences, StagesOfBlocks;
    SplitFront(v, y, e - 1, 2 * q, step);
    SplitFront(u, v + y, e - 1, 2 * q + 1, step);
    SplitFront(first, rest, e, q, step);
    assert u + v + y == u + (v + y);
  }

  lemma {:induction false} BlocksOfOne(x: seq<Complex>, q: nat, step: nat -> Complex)
    requires |x| == q
    ensures StagesOfBlocks(x, 0, q, step) == x
  {
    if q > 0 {
      BlocksOfOne(x[1..], q - 1, step);
    }
  }

  lemma SingleBlock(x: seq<Complex>, e: nat, step: nat -> Complex)
    requires |x| == Pow2(e)
    ensures StagesOfBlocks(x, e, 1, step) == Stages(x, e, step)
  {
    assert x[..Pow2(e)] == x && x[Pow2(e)..] == [];
  }

  /** Entry `i` after one butterfly stage with half-block `half` and twiddle step `w`. */
  function Butterfly(x: seq<Complex>, half: nat, w: Complex, i: nat): Complex
    requires half > 0 && i < |x| && |x| % (2 * half) == 0
  {
    var p := i % (2 * half);
    BlockBounds(|x|, 2 * half, i);
    if p < half then Add(x[i], x[i + half]) else Mul(Sub(x[i - half], x[i]), Pow(w, p - half))
  }

  /** The recursive description of a stage and the entry-wise one agree. */
  lemma {:induction false} OneStageAt(x: seq<Complex>, e: nat, q: nat, step: nat -> Complex, i: nat)
    requires e > 0 && |x| == q * Pow2(e) && i < |x|
    ensures |x| % (2 * Pow2(e - 1)) == 0
    ensures OneStage(x, e, q, step)[i] == Butterfly(x, Pow2(e - 1), step(Pow2(e - 1)), i)
    decreases q
  {
    hide Mul, Pow, Pow2, OneStage, Butterfly;
    var size, half := Pow2(e), Pow2(e - 1);
    HalfSize(e);
    MultipleMod(q, size);
    assert q > 0;
    FrontBlock(q, size);
    MulOrder(1, q, size);
    assert size <= |x|;
    var first, rest := x[..size], x[size..];
    assert x == first + rest;
    OneStageFront(first, rest, e, q - 1, step);
    if i >= size {
      OneStageAt(rest, e, q - 1, step, i - size);
      ButterflyOfRest(first, rest, half, step(half), i);
    } else {
      ButterflyOfFirst(first, rest, half, step(half), i);
    }
  }

  lemma ButterflyOfFirst(x: seq<Complex>, y: seq<Complex>, half: nat, w: Complex, i: nat)
    requires half > 0 && |x| == 2 * half && (|x| + |y|) % (2 * half) == 0 && i < |x|
    ensures Butterfly(x + y, half, w, i) == (Sums(x, half) + Differences(x, half, w))[i]
  {
    hide Mul, Pow, Add, Sub;
    Division(i, 2 * half, 0, i);
    var u, v := Sums(x, half), Differences(x, half, w);
    if i < half {
      assert (u + v)[i] == u[i];
    } else {
      assert (u + v)[i] == v[i - half];
    }
  }

  lemma ButterflyOfRest(x: seq<Complex>, y: seq<Complex>, half: nat, w: Complex, i: nat)
    requires half > 0 && |x| == 2 * half && |y| % (2 * half) == 0 && |x| <= i < |x| + |y|
    requires (|x| + |y|) % (2 * half) == 0
    ensures Butterfly(x + y, half, w, i) == Butterfly(y, half, w, i - |x|)
  {
    hide Mul, Pow;
    ModShift(i, 2 * half);
    BlockBounds(|y|, 2 * half, i - |x|);
  }

  /** Where the butterfly number (j-1) of block b touches the array. */
  lemma Locate(half: nat, b: nat, p: nat)
    requires p < half
    ensures (p + b * (2 * half)) % (2 * half) == p && (p + b * (2 * half)) / (2 * half) == b
    ensures (p + b * (2 * half) + half) % (2 * half) == p + half && (p + b * (2 * half) + half) / (2 * half) == b
  {
    Division(p + b * (2 * half), 2 * half, b, p);
    Division(p + b * (2 * half) + half, 2 * half, b, p + half);
  }

  /** Position of `i` within its half-block. */
  function Lane(i: nat, half: nat): nat
    requires half > 0
  {
    var p := i % (2 * half);
    if p < half then p else p - half
  }

  /** Lanes below `p`, and in lane `p` the blocks below `b`, hold their stage output already. */
  ghost predicate StageProgress(x: seq<Complex>, s: seq<Complex>, half: nat, w: Complex, p: nat, b: nat) {
    && half > 0
    && |x| == |s| && |s| % (2 * half) == 0
    && forall i :: 0 <= i < |s| ==>
         x[i] == if Lane(i, half) < p || (Lane(i, half) == p && i / (2 * half) < b)
                 then Butterfly(s, half, w, i) else s[i]
  }

  lemma StageStart(s: seq<Complex>, half: nat, w: Complex)
    requires half > 0 && |s| % (2 * half) == 0
    ensures StageProgress(s, s, half, w, 0, 0)
  {
    hide Butterfly;
  }

  lemma BlockOf(n: nat, size: nat, q: nat, i: nat)
    requires size > 0 && n == q * size && i < n
    ensures i / size < q
  {
    MultipleMod(q, size);
    BlockBounds(n, size, i);
  }

  lemma NextLane(x: seq<Complex>, s: seq<Complex>, half: nat, w: Complex, p: nat, q: nat)
    requires StageProgress(x, s, half, w, p, q) && |s| == q * (2 * half)
    ensures StageProgress(x, s, half, w, p + 1, 0)
  {
    hide Butterfly, Lane;
    forall i | 0 <= i < |s|
      ensures i / (2 * half) < q
      ensures x[i] == if Lane(i, half) < p + 1 then Butterfly(s, half, w, i) else s[i]
    {
      BlockOf(|s|, 2 * half, q, i);
    }
  }

  lemma ButterflyStep(x: seq<Complex>, y: seq<Complex>, s: seq<Complex>, half: nat, w: Complex, p: nat, b: nat)
    requires StageProgress(x, s, half, w, p, b) && p < half
    requires p + b * (2 * half) + half < |s|
    requires var i := p + b * (2 * half);
             y == x[i := Add(x[i], x[i + half])][i + half := Mul(Sub(x[i], x[i + half]), Pow(w, p))]
    ensures StageProgress(y, s, half, w, p, b + 1)
  {
    hide Mul, Pow;
    var size := 2 * half;
    var i := p + b * size;
    Locate(half, b, p);
    forall j | 0 <= j < |s|
      ensures y[j] == if Lane(j, half) < p || (Lane(j, half) == p && j / size < b + 1)
                      then Butterfly(s, half, w, j) else s[j]
    {
      if j != i && j != i + half {
        assert j == (j / size) * size + j % size;
        assert Lane(j, half) == p && j / size == b ==> j == i || j == i + half;
      }
    }
  }

  lemma StageDone(x: seq<Complex>, s: seq<Complex>, e: nat, q: nat, step: nat -> Complex)
    requires e > 0 && |s| == q * Pow2(e)
    requires StageProgress(x, s, Pow2(e - 1), step(Pow2(e - 1)), Pow2(e - 1), 0)
    ensures x == OneStage(s, e, q, step)
  {
    hide Butterfly, OneStage;
    forall i | 0 <= i < |s|
      ensures x[i] == OneStage(s, e, q, step)[i]
    {
      OneStageAt(s, e, q, step, i);
    }
  }

  /** Butterflies of one stage: for every lane j, every block k. */
  method ButterflyStage(x: array<Complex>, N: nat, LE: nat, ghost e: nat, ghost q: nat, step: nat -> Complex)
    requires e > 0 && LE == Pow2(e) && N == q * LE && N <= x.Length
    modifies x
    ensures x[..N] == OneStage(old(x[..N]), e, q, step)
    ensures x[N..] == old(x[N..])
  {
    hide Mul, OneStage, Butterfly, StageProgress;
    var LE1 := LE / 2;
    var Wn := ONE;
    var W := step(LE1);
    ghost var s := x[..N];
    MultipleMod(q, LE);
    StageStart(s, LE1, W);
    var j := 1;
    while j <= LE1
      invariant 1 <= j <= LE1 + 1
      invariant Wn == Pow(W, j - 1)
      invariant StageProgress(x[..N], s, LE1, W, j - 1, 0)
      invariant x[N..] == old(x[N..])
    {
      var k := j;
      ghost var b := 0;
      while k <= N
        invariant 0 <= b <= q && k == j + b * LE
        invariant StageProgress(x[..N], s, LE1, W, j - 1, b)
        invariant x[N..] == old(x[N..])
        decreases N + LE - k
      {
        BlockInRange(j, b, q, LE1);
        ghost var before := x[..N];
        var I := k - 1;
        var ip := I + LE1;
        var t := Add(x[I], x[ip]);
        var temp := Sub(x[I], x[ip]);
        x[ip] := Mul(temp, Wn);
        x[I] := t;
        assert x[..N] == before[I := Add(before[I], before[ip])][ip := Mul(Sub(before[I], before[ip]), Wn)];
        ButterflyStep(before, x[..N], s, LE1, W, j - 1, b);
        k := k + LE;
        b := b + 1;
        assert b * LE == (b - 1) * LE + LE;
      }
      AllBlocks(j, b, q, LE1);
      NextLane(x[..N], s, LE1, W, j - 1, q);
      Wn := Mul(W, Wn);
      j := j + 1;
    }
    StageDone(x[..N], s, e, q, step);
  }

  lemma BlockInRange(j: nat, b: nat, q: nat, half: nat)
    requires 1 <= j <= half && j + b * (2 * half) <= q * (2 * half)
    ensures b < q && j - 1 + b * (2 * half) + half < q * (2 * half)
  {
    MulOrder(q, b, 2 * half);
    MulOrder(b, q, 2 * half);
  }

  lemma AllBlocks(j: nat, b: nat, q: nat, half: nat)
    requires 1 <= j <= half && b <= q && j + b * (2 * half) > q * (2 * half)
    ensures b == q
  {
    MulOrder(b, q, 2 * half);
  }

  /**
   The whole transform: for every size 2^Nu and every input, output `k` is the sum over n of
   x[n] * w^(n*k); entries past the transform are left alone.
   */
  method DIF_FFT(x: array<Complex>, Nu: nat, step: nat -> Complex)
    requires Twiddles(step) && Pow2(Nu) <= x.Length
    modifies x
    ensures forall k :: 0 <= k < Pow2(Nu) ==>
              x[k] == Transform(old(x[..Pow2(Nu)]), Root(step, Pow2(Nu)), k)
    ensures x[Pow2(Nu)..] == old(x[Pow2(Nu)..])
  {
    hide Transform, Root, OneStage, StagesOfBlocks;
    var N := Pow2(Nu);
    var LE := N * 2;
    ghost var s := x[..N];
    ghost var q := 1;
    SingleBlock(s, Nu, step);
    var i := 1;
    while i <= Nu
      invariant 1 <= i <= Nu + 1
      invariant LE == 2 * Pow2(Nu + 1 - i) && N == q * Pow2(Nu + 1 - i)
      invariant StagesOfBlocks(x[..N], Nu + 1 - i, q, step) == Stages(s, Nu, step)
      invariant x[N..] == old(x[N..])
    {
      LE := LE / 2;
      ghost var e := Nu + 1 - i;
      OneStageThenRest(x[..N], e, q, step);
      ButterflyStage(x, N, LE, e, q, step);
      assert q * Pow2(e) == 2 * q * Pow2(e - 1);
      q := 2 * q;
      i := i + 1;
    }
    BlocksOfOne(x[..N], N, step);
    ghost var y := x[..N];
    assert Pow2(0) == 1 && q == N;
    assert y == Stages(s, Nu, step);
    ReorderInPlace(x, Nu);
    ReorderedStages(s, y, x[..N], Nu, step);
  }

  lemma ReorderedStages(s: seq<Complex>, y: seq<Complex>, z: seq<Complex>, e: nat, step: nat -> Complex)
    requires Twiddles(step) && |s| == Pow2(e)
    requires y == Stages(s, e, step) && z == Reordered(y, e)
    ensures forall k :: 0 <= k < |s| ==> z[k] == Transform(s, Root(step, Pow2(e)), k)
  {
    hide Transform, Root, Stages;
    forall k | 0 <= k < |s|
      ensures z[k] == Transform(s, Root(step, Pow2(e)), k)
    {
      StagesAreTransform(s, e, step, Reverse(e, k));
      ReverseInvolutive(e, k);
    }
  }
}
