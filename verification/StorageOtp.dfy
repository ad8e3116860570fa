/**
 OTP storage: byte-granular access built from whole-block reads and writes, and the regions that
 separate the users. Block reads and writes are taken to succeed.
 */
module StorageOtp {
  import opened Arithmetic
  import opened Bytes

  const MAX_USER_NUM: nat := 4
  const EINVAL: int := -22

  datatype Region = Region(userId: nat, start: nat, size: nat)

  /** What `otp_init` learns from the storage: sizes and addresses in bytes. */
  datatype Storage = Storage(blkSz: nat, wpGrpSize: nat, otpStart: nat, otpSize: nat, partitionStart: nat, direct: bool)

  /** Start and length of an access after rounding out to whole blocks. */
  function Aligned(offset: nat, size: nat, blk: nat): (r: (nat, nat))
    requires blk > 0
  {
    var offsetTmp := offset - offset % blk;
    var sizeTmp := size + offset % blk;
    (offsetTmp, if sizeTmp % blk != 0 then sizeTmp + (blk - sizeTmp % blk) else sizeTmp)
  }

  /** Rounding out yields whole blocks that cover the access and not a block more. */
  lemma AlignedCovers(offset: nat, size: nat, blk: nat)
    requires blk > 0
    ensures var (o, n) := Aligned(offset, size, blk);
            && o % blk == 0 && n % blk == 0
            && o <= offset < o + blk && offset + size <= o + n < offset + size + blk
            && o + offset % blk == offset
  {
    var q := offset / blk;
    assert offset == q * blk + offset % blk;
    MultipleMod(q, blk);
    var s := size + offset % blk;
    var k := s / blk;
    assert s == k * blk + s % blk;
    MultipleMod(k, blk);
    MultipleMod(k + 1, blk);
    assert (k + 1) * blk == k * blk + blk;
  }

  /** What `otp_init` asks of the partition: room for every user, were it to start at a group. */
  predicate Accepts(s: Storage)
    requires s.wpGrpSize > 0
  {
    s.otpSize / s.wpGrpSize >= MAX_USER_NUM
  }

  function RegionOf(s: Storage, i: nat): Region {
    Region(i, s.otpStart + i * s.wpGrpSize, s.wpGrpSize)
  }

  lemma RegionIs(s: Storage, i: nat)
    ensures RegionOf(s, i) == Region(i, s.otpStart + i * s.wpGrpSize, s.wpGrpSize)
  {
  }

  /**
   The partition has otpSize bytes, and block numbers count from its start. All four regions lie in
   it if and only if there is room for four groups behind the alignment gap otpStart, which the
   check does not look at.
   */
  lemma RegionsInPartition(s: Storage)
    requires s.wpGrpSize > 0
    ensures (forall i :: 0 <= i < MAX_USER_NUM ==> RegionOf(s, i).start + RegionOf(s, i).size <= s.otpSize)
       <==> s.otpStart + MAX_USER_NUM * s.wpGrpSize <= s.otpSize
  {
    var last := RegionOf(s, MAX_USER_NUM - 1);
    assert last.start + last.size == s.otpStart + MAX_USER_NUM * s.wpGrpSize;
    forall i | 0 <= i < MAX_USER_NUM
      ensures RegionOf(s, i).start + RegionOf(s, i).size <= last.start + last.size
    {
      MulOrder(i, MAX_USER_NUM - 1, s.wpGrpSize);
    }
  }

  /** A partition of four groups that starts inside a group: accepted, and the last region ends behind it. */
  lemma LastRegionOutside(s: Storage)
    requires 0 < s.otpStart < s.wpGrpSize && s.otpSize == MAX_USER_NUM * s.wpGrpSize
    ensures Accepts(s)
    ensures RegionOf(s, MAX_USER_NUM - 1).start + RegionOf(s, MAX_USER_NUM - 1).size > s.otpSize
  {
    MultipleMod(MAX_USER_NUM, s.wpGrpSize);
  }

  /** The blocks that an access touches, as the source computes them in 32-bit arithmetic. */
  function FirstBlock(offset: nat, size: nat, blk: nat): (b: nat)
    requires blk > 0
    ensures b < WORD_LIMIT
  {
    Aligned(offset, size, blk).0 / blk % WORD_LIMIT
  }

  function BlockCount(offset: nat, size: nat, blk: nat): (n: nat)
    requires blk > 0
    ensures n < WORD_LIMIT
  {
    Aligned(offset, size, blk).1 / blk % WORD_LIMIT
  }

  /** The 32-bit block numbers stand for the blocks meant. */
  predicate Exact(offset: nat, size: nat, blk: nat)
    requires blk > 0
  {
    Aligned(offset, size, blk).0 / blk < WORD_LIMIT && Aligned(offset, size, blk).1 / blk < WORD_LIMIT
  }

  /** The check that the source makes for a region not at the start of the device. */
  predicate Refused(regionStart: nat, regionSize: nat, offset: nat, size: nat, blk: nat)
    requires blk > 0
  {
    && regionStart / blk != 0
    && (FirstBlock(offset, size, blk) + BlockCount(offset, size, blk)) % WORD_LIMIT >= regionSize / blk
  }

  /** The block numbers are exact if and only if the touched blocks are those that cover the access. */
  lemma ExactBlocks(offset: nat, size: nat, blk: nat)
    requires blk > 0
    ensures var (o, n) := Aligned(offset, size, blk);
            Exact(offset, size, blk) <==> FirstBlock(offset, size, blk) * blk == o && BlockCount(offset, size, blk) * blk == n
  {
    var (o, n) := Aligned(offset, size, blk);
    AlignedCovers(offset, size, blk);
    var a, b := o / blk, n / blk;
    assert o == a * blk && n == b * blk;
    SameProduct(a % WORD_LIMIT, a, blk);
    SameProduct(b % WORD_LIMIT, b, blk);
  }

  lemma SumOfResidues(a: nat, b: nat)
    ensures (a % WORD_LIMIT + b % WORD_LIMIT) % WORD_LIMIT == (a + b) % WORD_LIMIT
  {
    var w := 0x1_0000_0000;
    var p, q, r, t := a / w, b / w, a % w, b % w;
    assert a + b == (p + q) * w + (r + t);
    if r + t < w {
      Division(a + b, w, p + q, r + t);
    } else {
      Division(a + b, w, p + q + 1, r + t - w);
      Division(r + t, w, 1, r + t - w);
    }
  }

  /** First block and count together are, up to the wrap, the number of blocks up to the end of the access. */
  lemma BlocksToEnd(offset: nat, size: nat, blk: nat)
    requires blk > 0
    ensures (FirstBlock(offset, size, blk) + BlockCount(offset, size, blk)) % WORD_LIMIT
         == (offset + size + blk - 1) / blk % WORD_LIMIT
  {
    hide Aligned;
    AlignedCovers(offset, size, blk);
    var (o, n) := Aligned(offset, size, blk);
    WholeBlocks(o, blk);
    WholeBlocks(n, blk);
    Ceiling(o / blk, n / blk, blk, offset + size);
    SumOfResidues(o / blk, n / blk);
  }

  lemma WholeBlocks(o: nat, blk: nat)
    requires blk > 0 && o % blk == 0
    ensures o == o / blk * blk
  {
  }

  lemma Ceiling(a: nat, b: nat, blk: nat, x: nat)
    requires blk > 0 && x <= a * blk + b * blk < x + blk
    ensures (x + blk - 1) / blk == a + b
  {
    assert (a + b) * blk == a * blk + b * blk;
    Division(x + blk - 1, blk, a + b, x + blk - 1 - (a + b) * blk);
  }

  lemma PastFirstBlock(start: nat, blk: nat)
    requires blk > 0
    ensures start / blk != 0 <==> start >= blk
  {
    if start < blk {
      Division(start, blk, 0, start);
    } else {
      MulOrder(0, start / blk, blk);
    }
  }

  /** Refusal in plain numbers: a region past the first block, and an access that ends in its last block or later. */
  lemma RefusedExactly(start: nat, regionSize: nat, offset: nat, size: nat, blk: nat)
    requires blk > 0
    ensures Refused(start, regionSize, offset, size, blk)
       <==> start >= blk && (offset + size + blk - 1) / blk % 0x1_0000_0000 >= regionSize / blk
  {
    BlocksToEnd(offset, size, blk);
    PastFirstBlock(start, blk);
    hide FirstBlock, BlockCount;
  }

  lemma SameProduct(a: nat, b: nat, blk: nat)
    requires blk > 0
    ensures a * blk == b * blk <==> a == b
  {
    MulOrder(a, b, blk);
    MulOrder(b, a, blk);
  }

  lemma CountWithin(offset: nat, size: nat, blk: nat)
    requires blk > 0
    ensures BlockCount(offset, size, blk) * blk <= Aligned(offset, size, blk).1
  {
    hide Aligned;
    AlignedCovers(offset, size, blk);
    var n := Aligned(offset, size, blk).1;
    assert n == n / blk * blk;
    MulOrder(BlockCount(offset, size, blk), n / blk, blk);
  }

  lemma AlignedExactly(offset: nat, size: nat, blk: nat)
    requires blk > 0
    ensures offset % blk == 0 && size % blk == 0 ==> Aligned(offset, size, blk).1 == size
    ensures offset % blk + size <= Aligned(offset, size, blk).1
  {
    AlignedCovers(offset, size, blk);
  }

  /** An offset of 2^32 blocks lands on the first block of the region. */
  lemma InexactOffset(blk: nat)
    requires blk > 0
    ensures !Exact(WORD_LIMIT * blk, blk, blk)
    ensures FirstBlock(WORD_LIMIT * blk, blk, blk) == FirstBlock(0, blk, blk) == 0
  {
    MultipleMod(WORD_LIMIT, blk);
    MultipleMod(0, blk);
    MultipleMod(1, blk);
    assert WORD_LIMIT * blk - 0 == WORD_LIMIT * blk;
  }

  /**
   An access that the check accepts, in a block-aligned region past the start of the device, stays
   inside that region, and indeed below its last block, if and only if the 32-bit sum of block
   number and count does not wrap. (A sum equal to the region's size is refused.)
   */
  lemma AcceptedStaysInside(start: nat, regionSize: nat, offset: nat, size: nat, blk: nat)
    requires blk > 0 && start % blk == 0 && regionSize % blk == 0 && start >= blk
    requires !Refused(start, regionSize, offset, size, blk) && regionSize / blk < WORD_LIMIT
    ensures var first, count := FirstBlock(offset, size, blk), BlockCount(offset, size, blk);
            && (first + count < WORD_LIMIT <==>
                  (start / blk + first + count) * blk <= start + regionSize)
            && (first + count < WORD_LIMIT ==>
                  start <= (start / blk + first) * blk && (start / blk + first + count) * blk <= start + regionSize - blk)
  {
    hide FirstBlock, BlockCount;
    var first, count := FirstBlock(offset, size, blk), BlockCount(offset, size, blk);
    var b, k := start / blk, regionSize / blk;
    assert start == b * blk && regionSize == k * blk;
    MulOrder(b, 1, blk);
    AcceptedBlocks(b, k, first, count, blk);
  }

  lemma AcceptedBlocks(b: nat, k: nat, first: nat, count: nat, blk: nat)
    requires first < WORD_LIMIT && count < WORD_LIMIT && k < WORD_LIMIT
    requires (first + count) % WORD_LIMIT < k && blk > 0
    ensures first + count < WORD_LIMIT <==> (b + first + count) * blk <= b * blk + k * blk
    ensures first + count < WORD_LIMIT ==>
              b * blk <= (b + first) * blk && (b + first + count) * blk <= b * blk + k * blk - blk
  {
    assert (b + k) * blk == b * blk + k * blk;
    MulOrder(b, b + first, blk);
    MulOrder(b + first + count, b + k, blk);
    MulOrder(b + k, b + first + count, blk);
  }

  /** The regions of different users do not overlap. */
  lemma RegionsDisjoint(otpStart: nat, group: nat, i: nat, j: nat, p: nat, q: nat)
    requires i != j && p < group && q < group
    ensures otpStart + i * group + p != otpStart + j * group + q
  {
    MulOrder(i, j, group);
    MulOrder(j, i, group);
  }

  /** At most the bytes from `lo` up to `hi` differ. */
  ghost predicate OnlyBetween(s: seq<bv8>, t: seq<bv8>, lo: int, hi: int) {
    |s| == |t| && forall k :: 0 <= k < |s| && !(lo <= k < hi) ==> s[k] == t[k]
  }

  lemma SpliceBetween(s: seq<bv8>, i: nat, t: seq<bv8>)
    requires i + |t| <= |s|
    ensures OnlyBetween(s, Splice(s, i, t), i, i + |t|)
  {
    hide Splice;
    forall k | 0 <= k < |s| && !(i <= k < i + |t|)
      ensures s[k] == Splice(s, i, t)[k]
    {
      SpliceByte(s, i, t, k);
    }
  }

  /** Storing inside a copy of some blocks and putting the copy back is storing in place. */
  lemma StoredInBlocks(dev: seq<bv8>, base: nat, n: nat, d: nat, t: seq<bv8>)
    requires base + n <= |dev| && d + |t| <= n
    ensures Splice(dev, base, Splice(dev[base..base + n], d, t)) == Splice(dev, base + d, t)
  {
    hide Splice;
    var was := dev[base..base + n];
    var r, w := Splice(dev, base, Splice(was, d, t)), Splice(dev, base + d, t);
    forall k | 0 <= k < |dev|
      ensures r[k] == w[k]
    {
      SpliceByte(dev, base, Splice(was, d, t), k);
      SpliceByte(dev, base + d, t, k);
      if base <= k < base + n {
        SpliceByte(was, d, t, k - base);
      }
    }
    assert r == w;
  }

  lemma Regroup(a: nat, i: nat, q: nat, blk: nat)
    ensures a * blk + i * (q * blk) == (a + i * q) * blk
  {
  }

  lemma Regroup3(b: nat, first: nat, count: nat, blk: nat)
    ensures (b + first) * blk == b * blk + first * blk && (b + first + count) * blk == b * blk + first * blk + count * blk
    ensures b * blk <= (b + first) * blk && (count > 0 && blk > 0 ==> count * blk > 0)
  {
    MulOrder(0, first, blk);
    MulOrder(0, count, blk);
  }

  /** One whole block at block number `a`. */
  lemma OneBlock(a: nat, blk: nat)
    requires blk > 0
    ensures FirstBlock(a * blk, blk, blk) == a % WORD_LIMIT && BlockCount(a * blk, blk, blk) == 1
  {
    MultipleMod(a, blk);
    MultipleMod(1, blk);
  }

  class Otp {
    var blkSz: nat
    var wpGrpSize: nat
    var otpStart: nat
    var otpSize: nat
    var partitionStart: nat
    var direct: bool                 // the device offers byte read and write itself
    var maxUserNum: nat
    var currentUserId: nat
    const region: array<Region>
    const device: array<bv8>         // the partition

    constructor (region: array<Region>, device: array<bv8>)
      requires region.Length == MAX_USER_NUM
      ensures this.region == region && this.device == device
    {
      this.region, this.device := region, device;
    }

    /** The region meant for user `i`. */
    ghost function UserRegion(i: nat): Region
      reads this
    {
      Region(i, otpStart + i * wpGrpSize, wpGrpSize)
    }

    /** Every user has a region of one write-protect group, one after the other. */
    ghost predicate Valid()
      reads this, region
    {
      && region.Length == MAX_USER_NUM
      && blkSz > 0
      && currentUserId < MAX_USER_NUM
      && forall i :: 0 <= i < MAX_USER_NUM ==> region[i] == UserRegion(i)
    }

    /** `otp_init`: fails exactly when there is no room for all users or the user does not exist. */
    method Init(s: Storage, userId: nat) returns (code: int)
      requires region.Length == MAX_USER_NUM && s.blkSz > 0 && s.wpGrpSize > 0
      modifies this, region
      ensures code == if Accepts(s) && userId < MAX_USER_NUM then 0 else EINVAL
      ensures code == 0 ==>
                && Valid() && currentUserId == userId && maxUserNum == MAX_USER_NUM
                && blkSz == s.blkSz && wpGrpSize == s.wpGrpSize && otpStart == s.otpStart && otpSize == s.otpSize
                && partitionStart == s.partitionStart && direct == s.direct
                && (forall i :: 0 <= i < MAX_USER_NUM ==> region[i] == RegionOf(s, i))
                && ((forall i :: 0 <= i < MAX_USER_NUM ==> region[i].start + region[i].size <= otpSize)
                    <==> otpStart + MAX_USER_NUM * wpGrpSize <= otpSize)
    {
      hide RegionOf;
      blkSz, wpGrpSize, otpStart, otpSize := s.blkSz, s.wpGrpSize, s.otpStart, s.otpSize;
      partitionStart, direct := s.partitionStart, s.direct;
      maxUserNum := otpSize / wpGrpSize;
      if maxUserNum < MAX_USER_NUM {
        return EINVAL;
      }
      maxUserNum := MAX_USER_NUM;
      if userId >= MAX_USER_NUM {
        return EINVAL;
      }
      var i := 0;
      while i < maxUserNum
        invariant 0 <= i <= maxUserNum == MAX_USER_NUM
        invariant forall k :: 0 <= k < i ==> region[k] == RegionOf(s, k)
        modifies region
      {
        RegionIs(s, i);
        region[i] := region[i].(size := wpGrpSize);
        region[i] := region[i].(start := otpStart + i * region[i].size);
        region[i] := region[i].(userId := i);
        i := i + 1;
      }
      currentUserId := userId;
      RegionsInPartition(s);
      forall k | 0 <= k < MAX_USER_NUM
        ensures region[k] == UserRegion(k)
      {
        RegionIs(s, k);
      }
      return 0;
    }

    /** `otp_get_region`: the region of the current user. */
    method GetRegion() returns (start: nat, size: nat)
      requires Valid()
      ensures start == RegionStart() && size == wpGrpSize
    {
      start, size := 0, 0;
      var i := 0;
      while i < MAX_USER_NUM
        invariant 0 <= i <= currentUserId
      {
        if currentUserId == region[i].userId {
          start := region[i].start;
          size := region[i].size;
          break;
        }
        i := i + 1;
      }
    }

    /** block_read of `n` bytes from byte `base` on, both whole blocks. */
    method BlockRead(base: nat, n: nat) returns (buffer: seq<bv8>)
      requires base + n <= device.Length
      ensures buffer == device[base..base + n]
    {
      buffer := device[base..base + n];
    }

    /** block_write at byte `base`, whole blocks. */
    method BlockWrite(buffer: seq<bv8>, base: nat)
      requires base + |buffer| <= device.Length
      modifies device
      ensures device[..] == Splice(old(device[..]), base, buffer)
    {
      forall k | 0 <= k < |buffer| {
        device[base + k] := buffer[k];
      }
    }

    ghost function RegionStart(): int
      reads this
    {
      otpStart + currentUserId * wpGrpSize
    }

    /** First byte of the current user's region, rounded down to a block. */
    ghost function BlockBase(): nat
      reads this
      requires blkSz > 0
    {
      RegionStart() / blkSz * blkSz
    }

    /** Where byte `offset` of the current user lies on the device. */
    ghost function Address(offset: nat): int
      reads this
      requires blkSz > 0
    {
      if direct then RegionStart() - partitionStart + offset else BlockBase() + offset
    }

    /** The address in terms of the fields. */
    lemma AddressPlace(offset: nat)
      requires blkSz > 0
      ensures Address(offset) == offset + if direct then otpStart + currentUserId * wpGrpSize - partitionStart
                                          else (otpStart + currentUserId * wpGrpSize) / blkSz * blkSz
    {
    }

    /** The OTP address of device byte `k` is k + Origin(). */
    ghost function Origin(): int
      reads this
    {
      if direct then partitionStart else 0
    }

    /** Device byte `k` belongs to user `j`. */
    ghost predicate Owns(j: nat, k: nat)
      reads this
    {
      UserRegion(j).start <= k + Origin() < UserRegion(j).start + UserRegion(j).size
    }

    /** Nothing that belongs to another user differs. */
    ghost predicate OthersSame(s: seq<bv8>, t: seq<bv8>)
      reads this
    {
      |s| == |t| && forall k, j :: 0 <= k < |s| && 0 <= j < MAX_USER_NUM && j != currentUserId && Owns(j, k) ==> s[k] == t[k]
    }

    /** The regions consist of whole blocks, and the current one is not at the start of the device. */
    ghost predicate Separated()
      reads this
      requires blkSz > 0
    {
      && otpStart % blkSz == 0 && wpGrpSize % blkSz == 0 && wpGrpSize / blkSz < WORD_LIMIT
      && RegionStart() >= blkSz
    }

    /** First device byte that a write may touch, and the first behind them. */
    ghost function Touched(offset: nat, size: nat): (r: (int, int))
      reads this
      requires blkSz > 0
    {
      if direct then (Address(offset), Address(offset) + size)
      else
        var at := BlockBase() + FirstBlock(offset, size, blkSz) * blkSz;
        (at, at + BlockCount(offset, size, blkSz) * blkSz)
    }

    /** Nothing is touched, or only bytes of the current user's region. */
    ghost predicate OnlyOwn(offset: nat, size: nat)
      reads this
      requires blkSz > 0
    {
      var (lo, hi) := Touched(offset, size);
      lo >= hi || (RegionStart() <= lo + Origin() && hi + Origin() <= RegionStart() + wpGrpSize)
    }

    /** By bytes, the access ends inside the region; by blocks, the 32-bit sum of the check does not wrap. */
    ghost predicate KeepsInside(offset: nat, size: nat)
      reads this
      requires blkSz > 0
    {
      if direct then size == 0 || offset + size <= wpGrpSize
      else FirstBlock(offset, size, blkSz) + BlockCount(offset, size, blkSz) < WORD_LIMIT
    }

    /**
     What is refused: an access in a region past the first block that ends in the region's last block or
     later, the number of blocks up to its end being taken modulo 2^32.
     */
    ghost predicate RefusedNow(offset: nat, size: nat)
      reads this
      requires blkSz > 0
    {
      && otpStart + currentUserId * wpGrpSize >= blkSz
      && (offset + size + blkSz - 1) / blkSz % 0x1_0000_0000 >= wpGrpSize / blkSz
    }

    /** The check of the source, by first block and count, refuses just that. */
    lemma CheckRefuses(offset: nat, size: nat)
      requires blkSz > 0
      ensures RefusedNow(offset, size)
         <==> RegionStart() / blkSz != 0
              && (FirstBlock(offset, size, blkSz) + BlockCount(offset, size, blkSz)) % WORD_LIMIT >= wpGrpSize / blkSz
    {
      RefusedExactly(RegionStart(), wpGrpSize, offset, size, blkSz);
      hide FirstBlock, BlockCount;
    }

    /** What the device offers must contain what is accessed. */
    ghost predicate OnDevice(offset: nat, size: nat)
      reads this
      requires blkSz > 0
    {
      if direct then 0 <= Address(0) && Address(offset) + size <= device.Length
      else BlockBase() + (FirstBlock(offset, size, blkSz) + BlockCount(offset, size, blkSz)) * blkSz <= device.Length
    }

    /** The device's own byte read and write. */
    method DirectAccess(typ: nat, buffer: array<bv8>, at: nat, size: nat)
      requires buffer != device && size <= buffer.Length && at + size <= device.Length
      modifies device, buffer
      ensures typ == 0 ==> buffer[..] == old(buffer[..]) && device[..] == Splice(old(device[..]), at, old(buffer[..size]))
      ensures typ != 0 ==> device[..] == old(device[..]) && buffer[..] == Splice(old(buffer[..]), 0, device[at..at + size])
    {
      if typ == 0 {
        forall k | 0 <= k < size {
          device[at + k] := buffer[k];
        }
      } else {
        forall k | 0 <= k < size {
          buffer[k] := device[at + k];
        }
      }
    }

    /** Read-modify-write: the old blocks are read first unless the access is aligned at both ends. */
    method StoreInBlocks(bytes: seq<bv8>, d: nat, total: nat, base: nat, n: nat, aligned: bool)
      requires n <= total && d + |bytes| <= total && base + n <= device.Length
      requires aligned ==> d == 0 && total == |bytes|
      modifies device
      ensures OnlyBetween(old(device[..]), device[..], base, base + n)
      ensures n == total ==> device[..] == Splice(old(device[..]), base + d, bytes)
    {
      ghost var dev := device[..];
      var tmp := seq(total, _ => 0);
      if !aligned {
        var got := BlockRead(base, n);
        tmp := got + tmp[n..];
      }
      ghost var before := tmp;
      tmp := Splice(tmp, d, bytes);
      BlockWrite(tmp[..n], base);
      SpliceBetween(dev, base, tmp[..n]);
      if n == total {
        assert tmp[..n] == tmp;
        StoredInBlocks(dev, base, n, d, bytes);
        assert !aligned ==> before == dev[base..base + n];
        assert aligned ==> tmp == bytes == Splice(dev[base..base + n], d, bytes);
      }
    }

    /** Whole blocks are read and the wanted part copied out. */
    method FetchFromBlocks(buffer: array<bv8>, size: nat, d: nat, total: nat, base: nat, n: nat)
      requires buffer != device && size <= buffer.Length
      requires n <= total && d + size <= total && base + n <= device.Length
      modifies buffer
      ensures n == total ==> buffer[..] == Splice(old(buffer[..]), 0, device[base + d..base + d + size])
    {
      var tmp := seq(total, _ => 0);
      var got := BlockRead(base, n);
      tmp := got + tmp[n..];
      ghost var was := buffer[..];
      forall k | 0 <= k < size {
        buffer[k] := tmp[d + k];
      }
      if n == total {
        assert tmp == got;
        assert tmp[d..d + size] == device[base + d..base + d + size];
        assert buffer[..] == Splice(was, 0, tmp[d..d + size]);
      }
    }

    /** The two ways through the temporary buffer. */
    method BlockAccess(typ: nat, buffer: array<bv8>, offset: nat, size: nat, total: nat, base: nat, n: nat)
      requires blkSz > 0 && buffer != device && size <= buffer.Length
      requires n <= total && offset % blkSz + size <= total && base + n <= device.Length
      requires offset % blkSz == 0 && size % blkSz == 0 ==> total == size
      modifies device, buffer
      ensures typ == 0 ==> buffer[..] == old(buffer[..])
      ensures typ != 0 ==> device[..] == old(device[..])
      ensures OnlyBetween(old(device[..]), device[..], base, base + n)
      ensures n == total ==>
                var at := base + offset % blkSz;
                && (typ == 0 ==> device[..] == Splice(old(device[..]), at, old(buffer[..size])))
                && (typ != 0 ==> buffer[..] == Splice(old(buffer[..]), 0, device[at..at + size]))
    {
      hide Splice;
      if typ == 0 {
        StoreInBlocks(buffer[..size], offset % blkSz, total, base, n, offset % blkSz == 0 && size % blkSz == 0);
      } else {
        FetchFromBlocks(buffer, size, offset % blkSz, total, base, n);
      }
    }

    /** With exact block numbers, byte d of the first block touched is the byte meant. */
    lemma BlockAddress(offset: nat, size: nat)
      requires blkSz > 0
      ensures var (o, total) := Aligned(offset, size, blkSz);
              var b := RegionStart() / blkSz;
              var first, count := FirstBlock(offset, size, blkSz), BlockCount(offset, size, blkSz);
              && (b + first) * blkSz == BlockBase() + first * blkSz
              && (first + count) * blkSz == first * blkSz + count * blkSz
              && count * blkSz <= total
              && (Exact(offset, size, blkSz) ==> count * blkSz == total)
              && (Exact(offset, size, blkSz) ==> (b + first) * blkSz + offset % blkSz == BlockBase() + offset)
    {
      hide FirstBlock, BlockCount, Aligned, RegionStart;
      AlignedCovers(offset, size, blkSz);
      ExactBlocks(offset, size, blkSz);
      CountWithin(offset, size, blkSz);
    }

    /** The access by blocks, in terms of the user's bytes. */
    method BlockPath(typ: nat, buffer: array<bv8>, offset: nat, size: nat, total: nat, startBlock: nat, first: nat, count: nat)
      requires blkSz > 0 && !direct && buffer != device && size <= buffer.Length
      requires OnDevice(offset, size) && startBlock == RegionStart() / blkSz
      requires total == Aligned(offset, size, blkSz).1
      requires first == FirstBlock(offset, size, blkSz) && count == BlockCount(offset, size, blkSz)
      modifies device, buffer
      ensures typ == 0 ==> buffer[..] == old(buffer[..])
      ensures typ != 0 ==> device[..] == old(device[..])
      ensures OnlyBetween(old(device[..]), device[..], Touched(offset, size).0, Touched(offset, size).1)
      ensures Exact(offset, size, blkSz) ==>
                && 0 <= Address(offset) && Address(offset) + size <= device.Length
                && (typ == 0 ==> device[..] == Splice(old(device[..]), Address(offset), old(buffer[..size])))
                && (typ != 0 ==> buffer[..] == Splice(old(buffer[..]), 0, device[Address(offset)..Address(offset) + size]))
    {
      hide *;
      MulOrder(0, startBlock + first, blkSz);
      MulOrder(0, count, blkSz);
      var base, n := (startBlock + first) * blkSz, count * blkSz;
      BlockRange(offset, size, base, n);
      AlignedExactly(offset, size, blkSz);
      BlockAccess(typ, buffer, offset, size, total, base, n);
    }

    /** The bytes of the blocks touched are on the device, and begin at the user's byte when exact. */
    lemma BlockRange(offset: nat, size: nat, base: nat, n: nat)
      requires blkSz > 0 && !direct && OnDevice(offset, size)
      requires base == (RegionStart() / blkSz + FirstBlock(offset, size, blkSz)) * blkSz
      requires n == BlockCount(offset, size, blkSz) * blkSz
      ensures base + n <= device.Length && n <= Aligned(offset, size, blkSz).1
      ensures Touched(offset, size) == (base, base + n)
      ensures Exact(offset, size, blkSz) ==>
                && n == Aligned(offset, size, blkSz).1
                && base + offset % blkSz == Address(offset)
                && 0 <= Address(offset) && Address(offset) + size <= device.Length
    {
      hide Aligned, FirstBlock, BlockCount, Exact, RegionStart;
      BlockAddress(offset, size);
      AlignedExactly(offset, size, blkSz);
    }

    /**
     `otp_ops_read_write`: a byte array over blocks. A write stores exactly the given bytes at the
     address of `offset`, a read returns exactly the bytes there; nothing else changes. Even when the
     block numbers are not exact, a write changes only the blocks touched; and a write that touches
     only the current user's bytes, which is to say one that keeps inside, leaves all others alone.
     */
    method OpsReadWrite(typ: nat, buffer: array?<bv8>, offset: nat, size: nat) returns (code: int)
      requires Valid() && (buffer != null ==> buffer != device && size <= buffer.Length)
      requires buffer == null || RefusedNow(offset, size) || OnDevice(offset, size)
      modifies device, buffer
      ensures code == if buffer == null || RefusedNow(offset, size) then -22 else 0
      ensures code != 0 || typ != 0 ==> device[..] == old(device[..])
      ensures buffer != null && (code != 0 || typ == 0) ==> buffer[..] == old(buffer[..])
      ensures code == 0 && typ == 0 && (direct || Exact(offset, size, blkSz)) ==>
                && 0 <= Address(offset) && Address(offset) + size <= device.Length
                && device[..] == Splice(old(device[..]), Address(offset), old(buffer[..size]))
      ensures code == 0 && typ != 0 && (direct || Exact(offset, size, blkSz)) ==>
                && 0 <= Address(offset) && Address(offset) + size <= device.Length
                && buffer[..] == Splice(old(buffer[..]), 0, device[Address(offset)..Address(offset) + size])
      ensures code == 0 && typ == 0 ==>
                OnlyBetween(old(device[..]), device[..], Touched(offset, size).0, Touched(offset, size).1)
      ensures code == 0 && typ == 0 && OnlyOwn(offset, size) ==> OthersSame(old(device[..]), device[..])
      ensures code == 0 && Separated() ==> (OnlyOwn(offset, size) <==> KeepsInside(offset, size))
    {
      hide Splice, Aligned, FirstBlock, BlockCount, Exact, BlockBase, OnDevice, OnlyBetween, KeepsInside, Separated, OthersSame,
           Touched, Address, OnlyOwn, RefusedNow, RegionStart, UserRegion;
      if buffer == null {
        return EINVAL;
      }
      ghost var dev := device[..];
      CheckRefuses(offset, size);
      var ok, total, first, count := BlockSpan(offset, size);
      if !ok {
        return -1;
      }
      var start, regionSize := GetRegion();
      var startBlock := start / blkSz;
      var sizeBlock := regionSize / blkSz;
      if startBlock != 0 {
        if (first + count) % WORD_LIMIT >= sizeBlock {
          return EINVAL;
        }
      }
      if direct {
        DirectRange(offset, size);
        DirectAccess(typ, buffer, start - partitionStart + offset, size);
        if typ == 0 {
          SpliceBetween(dev, Address(offset), old(buffer[..size]));
        }
      } else {
        BlockPath(typ, buffer, offset, size, total, startBlock, first, count);
      }
      code := 0;
      if Separated() {
        InsideExactly(offset, size);
      }
      if typ == 0 && OnlyOwn(offset, size) {
        OwnBytesOnly(offset, size, dev, device[..]);
      }
    }

    lemma DirectRange(offset: nat, size: nat)
      requires blkSz > 0 && direct && OnDevice(offset, size)
      ensures 0 <= Address(offset) == RegionStart() - partitionStart + offset
      ensures Address(offset) + size <= device.Length
      ensures Touched(offset, size) == (Address(offset), Address(offset) + size)
    {
    }

    /** An aligned region begins with its first block. */
    lemma RegionBase()
      requires blkSz > 0 && otpStart % blkSz == 0 && wpGrpSize % blkSz == 0
      ensures RegionStart() % blkSz == 0 && BlockBase() == RegionStart()
    {
      var a, q, i := otpStart / blkSz, wpGrpSize / blkSz, currentUserId;
      assert otpStart == a * blkSz && wpGrpSize == q * blkSz;
      assert otpStart + i * wpGrpSize == (a + i * q) * blkSz by {
        Regroup(a, i, q, blkSz);
      }
      MulOrder(0, a + i * q, blkSz);
      MultipleMod(a + i * q, blkSz);
    }

    /**
     Among the accesses that the check accepts in a separated region, those that touch nothing but
     the region's own bytes are exactly those that keep inside.
     */
    lemma InsideExactly(offset: nat, size: nat)
      requires blkSz > 0 && Separated() && !RefusedNow(offset, size)
      ensures OnlyOwn(offset, size) <==> KeepsInside(offset, size)
    {
      hide FirstBlock, BlockCount;
      RegionBase();
      CheckRefuses(offset, size);
      if !direct {
        AcceptedStaysInside(RegionStart(), wpGrpSize, offset, size, blkSz);
        var b, first, count := RegionStart() / blkSz, FirstBlock(offset, size, blkSz), BlockCount(offset, size, blkSz);
        Regroup3(b, first, count, blkSz);
      }
    }

    /** A write that touches only the current user's bytes changes nobody else's. */
    lemma OwnBytesOnly(offset: nat, size: nat, s: seq<bv8>, t: seq<bv8>)
      requires blkSz > 0 && OnlyOwn(offset, size) && OnlyBetween(s, t, Touched(offset, size).0, Touched(offset, size).1)
      ensures OthersSame(s, t)
    {
      hide Touched;
      var (lo, hi) := Touched(offset, size);
      forall k, j | 0 <= k < |s| && 0 <= j < MAX_USER_NUM && j != currentUserId && Owns(j, k)
        ensures s[k] == t[k]
      {
        if lo <= k < hi {
          var p, q := k + Origin() - UserRegion(j).start, k + Origin() - RegionStart();
          RegionsDisjoint(otpStart, wpGrpSize, j, currentUserId, p, q);
          assert false;
        }
      }
    }

    /** By bytes: an offset of 2^32 blocks passes the check, and the access lies outside the region. */
    lemma DirectEscapes()
      requires blkSz > 0 && Separated() && direct && wpGrpSize / blkSz > 1
      ensures !RefusedNow(WORD_LIMIT * blkSz, blkSz) && !OnlyOwn(WORD_LIMIT * blkSz, blkSz)
    {
      OneBlock(WORD_LIMIT, blkSz);
      CheckRefuses(WORD_LIMIT * blkSz, blkSz);
      MulOrder(wpGrpSize / blkSz, WORD_LIMIT, blkSz);
      hide FirstBlock, BlockCount;
    }

    /** By blocks: the last block number of 32 bits passes the check, and the access lies outside the region. */
    lemma BlocksEscape()
      requires blkSz > 0 && Separated() && !direct && wpGrpSize / blkSz > 0
      ensures !RefusedNow((WORD_LIMIT - 1) * blkSz, blkSz) && !OnlyOwn((WORD_LIMIT - 1) * blkSz, blkSz)
    {
      hide FirstBlock, BlockCount, OnlyOwn;
      OneBlock(WORD_LIMIT - 1, blkSz);
      CheckRefuses((WORD_LIMIT - 1) * blkSz, blkSz);
      hide RefusedNow;
      InsideExactly((WORD_LIMIT - 1) * blkSz, blkSz);
    }

    /** The blocks touched; the test that rounding gave whole blocks cannot fail. */
    method BlockSpan(offset: nat, size: nat) returns (ok: bool, total: nat, first: nat, count: nat)
      requires blkSz > 0
      ensures ok && total == Aligned(offset, size, blkSz).1
      ensures first == FirstBlock(offset, size, blkSz) && count == BlockCount(offset, size, blkSz)
    {
      var offsetTmp;
      offsetTmp, total := RoundOut(offset, size);
      AlignedCovers(offset, size, blkSz);
      hide Aligned;
      ok := total % blkSz == 0 && offsetTmp % blkSz == 0;
      first, count := offsetTmp / blkSz % WORD_LIMIT, total / blkSz % WORD_LIMIT;
    }

    /** The rounding of offset and size to whole blocks. */
    method RoundOut(offset: nat, size: nat) returns (offsetTmp: nat, sizeTmp: nat)
      requires blkSz > 0
      ensures (offsetTmp, sizeTmp) == Aligned(offset, size, blkSz)
    {
      offsetTmp, sizeTmp := offset, size;
      if offset % blkSz != 0 {
        offsetTmp := offset - offset % blkSz;
        sizeTmp := size + offset % blkSz;
      }
      if sizeTmp % blkSz != 0 {
        sizeTmp := sizeTmp + (blkSz - sizeTmp % blkSz);
      }
    }
  }
}
