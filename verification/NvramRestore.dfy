/**
 `NVM_RestoreFromBinRegion_OneFile`: reading the data file back from the good blocks of the
 backup region. Reads and seeks are taken to succeed.
 */
module NvramRestore {
  import opened Arithmetic
  import opened Bytes
  import opened Wrappers

  /** The good blocks (map value 0) from `from` up to `limit`, in increasing order. */
  function Good(bad: seq<int>, from: nat, limit: nat): (g: seq<nat>)
    requires limit <= |bad|
    decreases limit - from
  {
    if from >= limit then []
    else if bad[from] == 0 then [from] + Good(bad, from + 1, limit)
    else Good(bad, from + 1, limit)
  }

  /** `Good` lists exactly the good blocks, each once, in order. */
  lemma {:induction false} GoodBlocks(bad: seq<int>, from: nat, limit: nat)
    requires limit <= |bad|
    ensures var g := Good(bad, from, limit);
            && (forall i :: 0 <= i < |g| ==> from <= g[i] < limit && bad[g[i]] == 0)
            && (forall i, j :: 0 <= i < j < |g| ==> g[i] < g[j])
            && (forall b :: from <= b < limit && bad[b] == 0 ==> b in g)
    decreases limit - from
  {
    if from < limit {
      GoodBlocks(bad, from + 1, limit);
      var rest := Good(bad, from + 1, limit);
      forall b | from <= b < limit && bad[b] == 0
        ensures b in Good(bad, from, limit)
      {
        assert b > from ==> b in rest;
        assert b in [from] + rest <==> b == from || b in rest;
      }
    }
  }

  /** After the i-th good block come the rest of them. */
  lemma {:induction false} GoodAfter(bad: seq<int>, from: nat, limit: nat, i: nat)
    requires limit <= |bad| && i < |Good(bad, from, limit)|
    ensures Good(bad, Good(bad, from, limit)[i] + 1, limit) == Good(bad, from, limit)[i + 1..]
    decreases limit - from
  {
    if bad[from] != 0 {
      GoodAfter(bad, from + 1, limit, i);
    } else if i > 0 {
      GoodAfter(bad, from + 1, limit, i - 1);
    }
  }

  /** The bytes of the given blocks, one after the other. */
  function Gather(device: seq<seq<bv8>>, blocks: seq<nat>): seq<bv8>
    requires forall i :: 0 <= i < |blocks| ==> blocks[i] < |device|
    decreases |blocks|
  {
    if blocks == [] then []
    else Gather(device, blocks[..|blocks| - 1]) + device[blocks[|blocks| - 1]]
  }

  lemma {:induction false} GatherLength(device: seq<seq<bv8>>, blocks: seq<nat>, size: nat)
    requires forall i :: 0 <= i < |blocks| ==> blocks[i] < |device|
    requires forall b :: 0 <= b < |device| ==> |device[b]| == size
    ensures |Gather(device, blocks)| == |blocks| * size
    decreases |blocks|
  {
    if blocks != [] {
      GatherLength(device, blocks[..|blocks| - 1], size);
      assert |blocks| * size == (|blocks| - 1) * size + size;
    }
  }

  /** Byte `k` of the file is byte k % size of good block number k / size. */
  ghost predicate IsByteOf(device: seq<seq<bv8>>, good: seq<nat>, size: nat, k: nat, b: bv8)
    requires size > 0
  {
    && k / size < |good| && good[k / size] < |device| && k % size < |device[good[k / size]]|
    && b == device[good[k / size]][k % size]
  }

  lemma {:induction false} GatherByte(device: seq<seq<bv8>>, blocks: seq<nat>, size: nat, k: nat)
    requires size > 0 && forall i :: 0 <= i < |blocks| ==> blocks[i] < |device|
    requires forall b :: 0 <= b < |device| ==> |device[b]| == size
    requires k < |Gather(device, blocks)|
    ensures IsByteOf(device, blocks, size, k, Gather(device, blocks)[k])
    decreases |blocks|
  {
    var n := |blocks| - 1;
    var front := blocks[..n];
    GatherLength(device, front, size);
    if k < n * size {
      GatherByte(device, front, size, k);
    } else {
      GatherLength(device, blocks, size);
      assert (n + 1) * size == n * size + size;
      Division(k, size, n, k - n * size);
    }
  }

  lemma GatheredBytes(device: seq<seq<bv8>>, good: seq<nat>, n: nat, size: nat, file: seq<bv8>)
    requires size > 0 && n <= |good| && forall i :: 0 <= i < n ==> good[i] < |device|
    requires forall b :: 0 <= b < |device| ==> |device[b]| == size
    requires file <= Gather(device, good[..n])
    ensures forall k :: 0 <= k < |file| ==> IsByteOf(device, good, size, k, file[k])
  {
    hide Gather;
    forall k | 0 <= k < |file|
      ensures IsByteOf(device, good, size, k, file[k])
    {
      GatherByte(device, good[..n], size, k);
    }
  }

  /** ceil(dat / size). */
  function BlocksNeeded(dat: nat, size: nat): nat
    requires size > 0
  {
    if dat % size != 0 then dat / size + 1 else dat / size
  }

  lemma EnoughBlocks(dat: nat, size: nat, n: nat)
    requires size > 0 && n * size >= dat
    ensures BlocksNeeded(dat, size) <= n && dat <= BlocksNeeded(dat, size) * size
  {
    var q, r := dat / size, dat % size;
    assert dat == q * size + r;
    MulOrder(n, q, size);
    MulOrder(n, q + 1, size);
    assert (q + 1) * size == q * size + size;
  }

  /** The search for the next good block: `limit` if there is none, `start` itself if that is past `limit`. */
  method NextGood(bad: seq<int>, start: nat, limit: nat) returns (j: nat)
    requires limit <= |bad|
    ensures start <= j && (j <= limit || j == start)
    ensures if j < limit then Good(bad, start, limit) == [j] + Good(bad, j + 1, limit) else Good(bad, start, limit) == []
    ensures j < limit ==> bad[j] == 0
  {
    j := start;
    while j < limit
      invariant start <= j && (j <= limit || j == start)
      invariant Good(bad, start, limit) == Good(bad, j, limit)
    {
      if bad[j] == 0 {
        return;
      }
      j := j + 1;
    }
  }

  /** The good blocks counted by the free-block check. */
  method CountGood(bad: seq<int>, start: nat, limit: nat) returns (n: nat)
    requires limit <= |bad|
    ensures n == |Good(bad, start, limit)|
  {
    n := 0;
    var i := start;
    while i < limit
      invariant start <= i
      invariant n + |Good(bad, i, limit)| == |Good(bad, start, limit)|
    {
      if bad[i] == 0 {
        n := n + 1;
      }
      i := i + 1;
    }
  }

  /** The read loop; given enough good blocks, it never fails to find the next one. */
  method ReadBlocks(bad: seq<int>, device: seq<seq<bv8>>, ghost start: nat, limit: nat, pos0: nat, readTime: nat)
      returns (r: Option<seq<bv8>>)
    requires limit <= |bad| && limit <= |device|
    requires readTime <= |Good(bad, start, limit)|
    requires readTime > 0 ==> pos0 == Good(bad, start, limit)[0]
    ensures forall i :: 0 <= i < readTime ==> Good(bad, start, limit)[i] < |device|
    ensures r == Some(Gather(device, Good(bad, start, limit)[..readTime]))
  {
    hide Good, Gather;
    ghost var good := Good(bad, start, limit);
    GoodBlocks(bad, start, limit);
    GatherNothing(device);
    var pos := pos0;
    var buffer := [];
    var alreadyRead := 0;
    var i := 0;
    while i < readTime
      invariant 0 <= i <= readTime && alreadyRead == i
      invariant i < readTime ==> pos < limit && good[i] == pos
      invariant buffer == Gather(device, good[..i])
    {
      buffer := buffer + device[pos];
      GatherOneMore(device, good, i);
      alreadyRead := alreadyRead + 1;
      i := i + 1;
      if alreadyRead == readTime {
        break;
      }
      GoodAfter(bad, start, limit, i - 1);
      var j := NextGood(bad, pos + 1, limit);
      if j >= limit {
        return None;
      }
      pos := j;
    }
    r := Some(buffer);
  }

  /**
   The data file is restored if and only if a good block follows the map area and the good blocks
   there suffice by the source's 32-bit product; it is then the first `dat` bytes of the first
   ceil(dat / size) of them. So the later "not enough good blocks" exit is never taken. (An empty
   data file is also "restored" when the search starts past the end of the region.)
   */
  method RestoreData(bad: seq<int>, device: seq<seq<bv8>>, limit: nat, mapPos: nat, reserve: nat, size: nat, dat: nat)
      returns (r: Option<seq<bv8>>)
    requires 0 < size < WORD_LIMIT && limit <= |bad| && limit <= |device|
    requires forall b :: 0 <= b < |device| ==> |device[b]| == size
    ensures var good := Good(bad, mapPos + 1 + reserve, limit);
            && (r.Some? <==> if good == [] then mapPos + 1 + reserve > limit && dat == 0
                             else (|good| * size) % WORD_LIMIT >= dat)
            && (r.Some? ==>
                  var n := BlocksNeeded(dat, size);
                  && n <= |good|
                  && (forall i :: 0 <= i < n ==> good[i] < |device|)
                  && dat <= |Gather(device, good[..n])|
                  && r.value == Gather(device, good[..n])[..dat])
    ensures var good := Good(bad, mapPos + 1 + reserve, limit);
            r.Some? ==>
              && |r.value| == dat
              && forall k :: 0 <= k < dat ==> IsByteOf(device, good, size, k, r.value[k])
  {
    hide Good, Gather, IsByteOf;
    var start := mapPos + 1 + reserve;
    ghost var good := Good(bad, start, limit);
    var pos := mapPos;
    var i := NextGood(bad, start, limit);
    if i == limit {
      return None;
    }
    if i < limit {
      pos := i;
      FirstIsGood(bad, pos, limit);
    }
    var free := CountGood(bad, i, limit);
    if (free * size) % WORD_LIMIT < dat {
      return None;
    }
    ProductBelow(free * size);
    EnoughBlocks(dat, size, free);
    GoodBlocks(bad, start, limit);
    var readTime := if dat % size != 0 then dat / size + 1 else dat / size;
    var buffer := ReadBlocks(bad, device, start, limit, pos, readTime);
    GatherLength(device, good[..readTime], size);
    r := Some(buffer.value[..dat]);
    GatheredBytes(device, good, readTime, size, r.value);
  }

  lemma FirstIsGood(bad: seq<int>, pos: nat, limit: nat)
    requires pos < limit <= |bad| && bad[pos] == 0
    ensures Good(bad, pos, limit) == [pos] + Good(bad, pos + 1, limit)
  {
  }

  lemma ProductBelow(p: nat)
    ensures p % WORD_LIMIT <= p
  {
  }

  lemma GatherNothing(device: seq<seq<bv8>>)
    ensures Gather(device, []) == []
  {
  }

  lemma GatherOneMore(device: seq<seq<bv8>>, good: seq<nat>, i: nat)
    requires i < |good| && forall j :: 0 <= j <= i ==> good[j] < |device|
    ensures Gather(device, good[..i + 1]) == Gather(device, good[..i]) + device[good[i]]
  {
    assert good[..i + 1][..i] == good[..i];
  }
}
