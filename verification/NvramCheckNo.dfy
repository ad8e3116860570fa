/**
 The check trailer of a calibration file: a flag byte 0xAA and a check byte computed over the
 content (`NVM_ComputeCheckNo`, `NVM_SetCheckNo`, `NVM_CheckFile`).
 */
module NvramCheckNo {
  import opened Bytes

  const FLAG: bv8 := 0xAA
  const FAILED: bv8 := 0xFF

  type Content = seq<bv8>

  datatype CheckNo = CheckNo(value: bv8, flag: bv8)

  /** One step of the sum: xor or 8-bit addition. */
  function Mix(acc: bv8, xor: bool, b: bv8): bv8 {
    if xor then acc ^ b else acc + b
  }

  /** Bytes from a given accumulator on, alternately added and xor-ed. */
  function Accumulate(acc: bv8, xor: bool, bytes: Content): bv8
    decreases |bytes|
  {
    if bytes == [] then acc else Accumulate(Mix(acc, xor, bytes[0]), !xor, bytes[1..])
  }

  lemma {:induction false} AccumulateOneMore(acc: bv8, xor: bool, bytes: Content, b: bv8)
    ensures Accumulate(acc, xor, bytes + [b])
         == Mix(Accumulate(acc, xor, bytes), if |bytes| % 2 == 0 then xor else !xor, b)
    decreases |bytes|
  {
    hide Mix;
    if bytes == [] {
      assert (bytes + [b])[1..] == [];
    } else {
      AccumulateOneMore(Mix(acc, xor, bytes[0]), !xor, bytes[1..], b);
      assert (bytes + [b])[1..] == bytes[1..] + [b];
    }
  }

  /** The number of bytes covered: 32-bit, and for an "old" file without its two trailing bytes. */
  function Covered(f: Content, isOldFile: bool): (n: nat)
    ensures n < WORD_LIMIT
  {
    if isOldFile then (|f| - 2) % WORD_LIMIT else |f| % WORD_LIMIT
  }

  /** `NVM_ComputeCheckNo`: fails, with flag 0xFF, exactly when the file is shorter than the trailer. */
  method ComputeCheckNo(f: Content, isOldFile: bool) returns (r: CheckNo)
    ensures isOldFile && |f| < 2 ==> r == CheckNo(0, FAILED)
    ensures !isOldFile || |f| >= 2 ==>
              Covered(f, isOldFile) <= |f| && r == CheckNo(Accumulate(0, false, f[..Covered(f, isOldFile)]), 0)
  {
    hide Accumulate, Mix;
    var loopTimes := Covered(f, isOldFile);
    var acc: bv8 := 0;
    var xor := false;
    var i := 0;
    AccumulateNothing();
    assert f[..0] == [];
    while i < loopTimes
      invariant 0 <= i <= loopTimes && i <= |f|
      invariant xor == (i % 2 == 1)
      invariant acc == Accumulate(0, false, f[..i])
    {
      if i < |f| {
        AccumulateOneMore(0, false, f[..i], f[i]);
        assert f[..i + 1] == f[..i] + [f[i]];
        if xor {
          acc := Mix(acc, true, f[i]);
          xor := false;
        } else {
          acc := Mix(acc, false, f[i]);
          xor := true;
        }
      } else {
        return CheckNo(0, FAILED);
      }
      i := i + 1;
    }
    r := CheckNo(acc, 0);
  }

  lemma AccumulateNothing()
    ensures Accumulate(0, false, []) == 0
  {
  }

  /**
   The sum in terms of the bytes: nothing sums to zero, and after an even number of bytes the next one
   is added and the one after that xor-ed.
   */
  lemma SumOfTwoMoreBytes(bytes: Content, a: bv8, b: bv8)
    requires |bytes| % 2 == 0
    ensures Accumulate(0, false, []) == 0
    ensures Accumulate(0, false, bytes + [a]) == Accumulate(0, false, bytes) + a
    ensures Accumulate(0, false, bytes + [a, b]) == (Accumulate(0, false, bytes) + a) ^ b
  {
    hide Accumulate;
    AccumulateNothing();
    AccumulateOneMore(0, false, bytes, a);
    AccumulateOneMore(0, false, bytes + [a], b);
    assert bytes + [a] + [b] == bytes + [a, b];
  }

  /** What `NVM_CheckFile` accepts. */
  predicate Intact(f: Content) {
    && |f| >= 2
    && f[|f| - 2] == FLAG
    && f[|f| - 1] == Accumulate(0, false, f[..Covered(f, true)])
  }

  /** `NVM_CheckFile`. */
  method CheckFile(f: Content) returns (ok: bool)
    ensures ok == Intact(f)
    ensures ok <==> |f| >= 2 && f[|f| - 2] == 0xAA && f[|f| - 1] == Accumulate(0, false, f[..(|f| - 2) % 0x1_0000_0000])
  {
    var no := ComputeCheckNo(f, true);
    if no.flag == FAILED {
      return false;
    }
    if |f| < 2 {
      return false;
    }
    if f[|f| - 2] == FLAG {
      ok := f[|f| - 1] == no.value;
    } else {
      ok := false;
    }
  }

  /** The content that the trailer protects: an old file's last two bytes are overwritten, a new file grows. */
  function Body(f: Content, isOldFile: bool): Content
    requires isOldFile ==> |f| >= 2
  {
    if isOldFile then f[..|f| - 2] else f
  }

  /** `NVM_SetCheckNo`: the file keeps its body and gets a trailer that `NVM_CheckFile` accepts. */
  method SetCheckNo(f: Content, isOldFile: bool) returns (ok: bool, g: Content)
    ensures ok <==> !isOldFile || |f| >= 2
    ensures !ok ==> g == f
    ensures ok ==> |g| == |Body(f, isOldFile)| + 2 && g[..|g| - 2] == Body(f, isOldFile) && Intact(g)
    ensures ok ==> |g| == (if isOldFile then |f| else |f| + 2) && g[..|g| - 2] == f[..|g| - 2] && g[|g| - 2] == 0xAA
    ensures ok && |g| < 0x1_0000_0000 ==> g[|g| - 1] == Accumulate(0, false, f[..|g| - 2])
  {
    hide Accumulate;
    var no := ComputeCheckNo(f, isOldFile);
    g := f;
    if no.flag == FAILED {
      return false, g;
    }
    if isOldFile {
      if |f| < 2 {
        return false, g;
      }
      g := f[..|f| - 2] + [FLAG, no.value];
    } else {
      g := f + [FLAG, no.value];
    }
    ok := true;
    assert g[..Covered(g, true)] == f[..Covered(f, isOldFile)];
  }

  /** Addition and xor are injective in the accumulator and in the byte. */
  lemma MixInjective(a: bv8, b: bv8, xor: bool, c: bv8)
    requires a != b
    ensures Mix(a, xor, c) != Mix(b, xor, c)
    ensures Mix(c, xor, a) != Mix(c, xor, b)
  {
  }

  /** Different accumulators stay different. */
  lemma {:induction false} AccumulateInjective(a: bv8, b: bv8, xor: bool, bytes: Content)
    requires a != b
    ensures Accumulate(a, xor, bytes) != Accumulate(b, xor, bytes)
    decreases |bytes|
  {
    hide Mix;
    if bytes != [] {
      MixInjective(a, b, xor, bytes[0]);
      AccumulateInjective(Mix(a, xor, bytes[0]), Mix(b, xor, bytes[0]), !xor, bytes[1..]);
    }
  }

  /** Changing one byte of what is summed changes the sum. */
  lemma {:induction false} OneByteChangesSum(acc: bv8, xor: bool, bytes: Content, i: nat, b: bv8)
    requires i < |bytes| && b != bytes[i]
    ensures Accumulate(acc, xor, bytes[i := b]) != Accumulate(acc, xor, bytes)
    decreases |bytes|
  {
    hide Mix;
    var changed := bytes[i := b];
    if i == 0 {
      assert changed[1..] == bytes[1..];
      MixInjective(bytes[0], b, xor, acc);
      AccumulateInjective(Mix(acc, xor, bytes[0]), Mix(acc, xor, b), !xor, bytes[1..]);
    } else {
      assert changed[1..] == bytes[1..][i - 1 := b];
      OneByteChangesSum(Mix(acc, xor, bytes[0]), !xor, bytes[1..], i - 1, b);
    }
  }

  /**
   An intact file with exactly one byte changed is rejected if and only if the byte belongs to the
   trailer or to the part the 32-bit loop counter covers: always, for files below 4 GiB.
   */
  lemma OneByteChangeDetected(f: Content, i: nat, b: bv8)
    requires Intact(f) && i < |f| && b != f[i]
    ensures !Intact(f[i := b]) <==> i >= |f| - 2 || i < Covered(f, true)
    ensures |f| < WORD_LIMIT ==> !Intact(f[i := b])
  {
    hide Accumulate;
    var g, n := f[i := b], Covered(f, true);
    if i < n {
      assert g[..n] == f[..n][i := b];
      OneByteChangesSum(0, false, f[..n], i, b);
    } else {
      assert g[..n] == f[..n];
    }
  }

  /** A file of 4 GiB and a trailer: its first byte is not covered. */
  lemma LongFileChangeMissed(f: Content)
    requires f == seq(WORD_LIMIT, _ => 0) + [FLAG, 0]
    ensures Intact(f) && Intact(f[0 := 1]) && f[0 := 1] != f
  {
    assert f[..0] == [];
    OneByteChangeDetected(f, 0, 1);
    assert f[0 := 1][0] != f[0];
  }
}
