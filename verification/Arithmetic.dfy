/** Division facts about indices into blocks of equal size. */
module Arithmetic {

  lemma MulOrder(a: nat, b: nat, size: nat)
    ensures a <= b ==> a * size <= b * size
    ensures a < b ==> a * size + size <= b * size
  {
    assert b * size == a * size + (b - a) * size;
    if a < b {
      assert (b - a) * size == size + (b - a - 1) * size;
    }
  }

  /** Entry `p` of block `b` determines both. */
  lemma Division(i: nat, size: nat, b: nat, p: nat)
    requires p < size && i == b * size + p
    ensures i / size == b && i % size == p
  {
    hide *;
    var d := i / size;
    assert i == d * size + i % size && 0 <= i % size < size;
    MulOrder(d, b, size);
    MulOrder(b, d, size);
  }

  lemma MultipleMod(q: nat, size: nat)
    requires size > 0
    ensures (q * size) % size == 0 && (q * size) / size == q
  {
    Division(q * size, size, q, 0);
  }

  lemma ModShift(i: nat, size: nat)
    requires size > 0 && i >= size
    ensures i % size == (i - size) % size && i / size == (i - size) / size + 1
  {
    var b, p := (i - size) / size, (i - size) % size;
    assert i == (b + 1) * size + p;
    Division(i, size, b + 1, p);
  }

  /** The block that holds entry `i` lies inside a sequence of whole blocks. */
  lemma BlockBounds(n: nat, size: nat, i: nat)
    requires size > 0 && n % size == 0 && i < n
    ensures i / size < n / size
    ensures i % size <= i && i - i % size + size <= n
  {
    var q, b := n / size, i / size;
    assert n == q * size && i == b * size + i % size;
    MulOrder(b, q, size);
    MulOrder(q, b, size);
  }

  /** Indices a whole number of turns apart, but less than one turn apart, are equal. */
  lemma SameResidue(a: nat, b: nat, size: nat)
    requires size > 0 && a <= b < a + size && a % size == b % size
    ensures a == b
  {
    var p, q := a / size, b / size;
    assert a == p * size + a % size && b == q * size + b % size;
    MulOrder(p, q, size);
    MulOrder(q, p, size);
  }

  /** Stepping a circular index. */
  lemma NextResidue(n: nat, size: nat)
    requires size > 0
    ensures (n + 1) % size == if n % size + 1 >= size then 0 else n % size + 1
  {
    var q, p := n / size, n % size;
    assert n == q * size + p;
    if p + 1 >= size {
      assert n + 1 == (q + 1) * size;
      Division(n + 1, size, q + 1, 0);
    } else {
      Division(n + 1, size, q, p + 1);
    }
  }

  lemma Distribute(a: nat, b: nat, k: nat)
    ensures a * k >= 0 && b * k >= 0
    ensures (a + b) * k == a * k + b * k
    ensures a * (2 * k) == 2 * (a * k)
  {
  }

  /** `q` blocks are one block and the rest. */
  lemma FrontBlock(q: nat, size: nat)
    requires q > 0
    ensures q * size == size + (q - 1) * size
    ensures (q - 1) * size >= 0
  {
    MulOrder(0, q - 1, size);
  }

  lemma SliceOfSlice<T>(s: seq<T>, b: nat, e: nat, lo: nat, hi: nat)
    requires b <= e <= |s| && lo <= hi <= e - b
    ensures s[b..e][lo..hi] == s[b + lo..b + hi]
  {
    var x, y := s[b..e][lo..hi], s[b + lo..b + hi];
    forall k | 0 <= k < |x|
      ensures x[k] == y[k]
    {
      assert x[k] == s[b..e][lo + k] == s[b + lo + k];
    }
    assert x == y;
  }
}
