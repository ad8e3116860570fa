/**
 Bit reversal of indices, and the in-place reordering loop at the end of `DIF_FFT`.
 */
module BitReversal {

  function Pow2(n: nat): (p: nat)
    ensures p > 0
  {
    if n == 0 then 1 else 2 * Pow2(n - 1)
  }

  /** The `bits`-bit number whose binary digits are those of `n` in reverse order. */
  function Reverse(bits: nat, n: nat): (r: nat)
    requires n < Pow2(bits)
    ensures r < Pow2(bits)
  {
    if bits == 0 then 0
    else (if n % 2 == 1 then Pow2(bits - 1) else 0) + Reverse(bits - 1, n / 2)
  }

  /** The top bit of the argument becomes the bottom bit of the result. */
  lemma {:induction false} ReverseTopBit(bits: nat, n: nat)
    requires bits > 0 && n < Pow2(bits - 1)
    ensures Reverse(bits, n) == 2 * Reverse(bits - 1, n)
    ensures Reverse(bits, n + Pow2(bits - 1)) == 2 * Reverse(bits - 1, n) + 1
  {
    if bits > 1 {
      ReverseTopBit(bits - 1, n / 2);
      var m := n + Pow2(bits - 1);
      assert m / 2 == n / 2 + Pow2(bits - 2) && m % 2 == n % 2;
    }
  }

  /** Reversing twice is the identity, so the permutation is its own inverse. */
  lemma {:induction false} ReverseInvolutive(bits: nat, n: nat)
    requires n < Pow2(bits)
    ensures Reverse(bits, Reverse(bits, n)) == n
  {
    if bits > 0 {
      ReverseInvolutive(bits - 1, n / 2);
      ReverseTopBit(bits, Reverse(bits - 1, n / 2));
    }
  }

  lemma {:induction false} ReverseZero(bits: nat)
    ensures Reverse(bits, 0) == 0
  {
    if bits > 0 {
      ReverseZero(bits - 1);
    }
  }

  /** Adding one to a bit-reversed counter: clear the leading ones, set the next bit. */
  function Successor(bits: nat, r: nat): nat
    requires r < Pow2(bits) - 1
  {
    if r < Pow2(bits - 1) then r + Pow2(bits - 1)
    else Successor(bits - 1, r - Pow2(bits - 1))
  }

  lemma {:induction false} SuccessorOfReverse(bits: nat, n: nat)
    requires n < Pow2(bits) - 1
    ensures Reverse(bits, n) < Pow2(bits) - 1
    ensures Successor(bits, Reverse(bits, n)) == Reverse(bits, n + 1)
  {
    if n % 2 == 0 {
      assert (n + 1) / 2 == n / 2;
    } else {
      assert (n + 1) / 2 == n / 2 + 1;
      SuccessorOfReverse(bits - 1, n / 2);
    }
  }

  /**
   One step of the counter: `j - 1` is a reversed number other than all ones; the loop
   terminates with `k >= 1` and leaves the reversal of the next number in `j - 1`.
   */
  method Advance(bits: nat, half: nat, j0: nat) returns (j: nat, k: nat)
    requires half == Pow2(bits) / 2
    requires 1 <= j0 < Pow2(bits)
    ensures k >= 1
    ensures j == Successor(bits, j0 - 1) + 1
  {
    j, k := j0, half;
    ghost var left := bits;
    while k < j
      invariant 0 < left <= bits && k == Pow2(left - 1)
      invariant 1 <= j < Pow2(left)
      invariant Successor(left, j - 1) == Successor(bits, j0 - 1)
      decreases left
    {
      j := j - k;
      k := k / 2;
      left := left - 1;
    }
    j := j + k;
  }

  /** The sequence `s` with its first 2^bits entries moved to their bit-reversed places. */
  function Reordered<T>(s: seq<T>, bits: nat): (r: seq<T>)
    requires |s| == Pow2(bits)
    ensures |r| == |s|
  {
    seq(|s|, p requires 0 <= p < |s| => s[Reverse(bits, p)])
  }

  lemma ReorderedTwice<T>(s: seq<T>, bits: nat)
    requires |s| == Pow2(bits)
    ensures Reordered(Reordered(s, bits), bits) == s
  {
    forall p | 0 <= p < |s|
      ensures Reordered(Reordered(s, bits), bits)[p] == s[p]
    {
      ReverseInvolutive(bits, p);
    }
  }

  /** Every pair of indices {p, Reverse(p)} that reaches below `i` is already exchanged, no other. */
  ghost predicate PartlyReordered<T(!new)>(x: seq<T>, s: seq<T>, bits: nat, i: nat) {
    && |x| == |s| == Pow2(bits)
    && forall p :: 0 <= p < |s| ==>
         x[p] == if p < i || Reverse(bits, p) < i then s[Reverse(bits, p)] else s[p]
  }

  /** `x` with entries `p` and `r` exchanged. */
  function Exchanged<T>(x: seq<T>, p: nat, r: nat): seq<T>
    requires p < |x| && r < |x|
  {
    x[p := x[r]][r := x[p]]
  }

  lemma ExchangeStep<T(!new)>(x: seq<T>, s: seq<T>, bits: nat, i: nat)
    requires PartlyReordered(x, s, bits, i) && i < |s|
    ensures PartlyReordered(if i < Reverse(bits, i) then Exchanged(x, i, Reverse(bits, i)) else x, s, bits, i + 1)
  {
    var r := Reverse(bits, i);
    var y := if i < r then Exchanged(x, i, r) else x;
    ReverseInvolutive(bits, i);
    forall p | 0 <= p < |s|
      ensures y[p] == if p < i + 1 || Reverse(bits, p) < i + 1 then s[Reverse(bits, p)] else s[p]
    {
      if p == i {
      } else if p == r {
      } else {
        ReverseInvolutive(bits, p);
        assert Reverse(bits, p) != i;
      }
    }
  }

  lemma NothingReordered<T(!new)>(s: seq<T>, bits: nat)
    requires |s| == Pow2(bits)
    ensures PartlyReordered(s, s, bits, 0)
  {
  }

  lemma AllReordered<T(!new)>(x: seq<T>, s: seq<T>, bits: nat)
    requires PartlyReordered(x, s, bits, Pow2(bits) - 1)
    ensures x == Reordered(s, bits)
  {
  }

  /** The bit-reverse loop: exchanges every pair once, in place. */
  method ReorderInPlace<T(!new)>(x: array<T>, bits: nat)
    requires Pow2(bits) <= x.Length
    modifies x
    ensures x[..Pow2(bits)] == Reordered(old(x[..Pow2(bits)]), bits)
    ensures x[Pow2(bits)..] == old(x[Pow2(bits)..])
  {
    hide Reverse, Pow2, PartlyReordered, Reordered, Successor;
    var N := Pow2(bits);
    var Nv2 := N / 2;
    var i, j := 1, 1;
    ghost var s := x[..N];
    ReverseZero(bits);
    NothingReordered(s, bits);
    while i <= N - 1
      invariant 1 <= i <= N
      invariant 1 <= j <= N && j - 1 == Reverse(bits, i - 1)
      invariant PartlyReordered(x[..N], s, bits, i - 1)
      invariant x[N..] == old(x[N..])
    {
      ghost var before := x[..N];
      if i < j {
        var t := x[j - 1];
        x[j - 1] := x[i - 1];
        x[i - 1] := t;
        assert x[..N] == Exchanged(before, i - 1, j - 1);
      }
      ExchangeStep(before, s, bits, i - 1);
      SuccessorOfReverse(bits, i - 1);
      var k;
      j, k := Advance(bits, Nv2, j);
      i := i + 1;
    }
    AllReordered(x[..N], s, bits);
  }
}
