/** What the checksums mean. */
module CrcTheorems {
  import opened Bits
  import opened CrcDivision
  import opened Crc

  /** From zero, the register ends as the one remainder of the message, moved up by the register's width. */
  lemma StepsIsRemainder(m: Word, q: Word, r: Word, p: Word)
    requires 0 < |p| == |r| && |q| == |m| + |p| && IsDivision(m + Zeros(|p|), q, r, p)
    ensures r == Steps(Zeros(|p|), m, p)
  {
    var up := m + Zeros(|p|);
    ChecksumCheck(m, r, p);
    LongDivision(up, p);
    DivisionUnique(up, q, r, Quotients(Zeros(|p|), up, p), AugSteps(Zeros(|p|), up, p), p);
  }

  /** An initial remainder is the same as flipping the message's first bits. */
  lemma InitialRemainder(r: Word, m: Word, p: Word)
    requires 0 < |r| == |p| <= |m|
    ensures Steps(r, m, p) == Steps(Zeros(|p|), Xor(m, r + Zeros(|m| - |p|)), p)
  {
    var z, w := Zeros(|p|), |p|;
    var a, b := m[..w], m[w..];
    assert m == a + b;
    assert Xor(m, r + Zeros(|m| - w)) == Xor(r, a) + b;
    StepsAppend(r, a, b, p);
    StepsAppend(z, Xor(r, a), b, p);
    FoldIn(z, r, a, p);
    assert Xor(z, r + Zeros(0)) == r;
  }

  /**
   Long division of a block of bytes followed by a register's worth of bytes: zeros give the checksum, and the
   result is zero exactly when the bytes are the checksum, the highest first.
   */
  lemma AugmentedBlock(m: seq<Byte>, tail: seq<Byte>, p: Word)
    requires 0 < |p| == 8 * |tail|
    ensures InputBits(false, tail) == Zeros(|p|) ==>
              AugSteps(Zeros(|p|), InputBits(false, m + tail), p) == Steps(Zeros(|p|), InputBits(false, m), p)
    ensures AugSteps(Zeros(|p|), InputBits(false, m + tail), p) == Zeros(|p|) <==>
              InputBits(false, tail) == Steps(Zeros(|p|), InputBits(false, m), p)
  {
    InputAppend(false, m, tail);
    ChecksumCheck(InputBits(false, m), InputBits(false, tail), p);
  }

  // ---------- errors ----------

  /** With a divisor whose constant term is 1, a division step loses nothing. */
  lemma StepInjective(r: Word, b: bool, p: Word)
    requires 0 < |r| == |p| && p[|p| - 1] && Step(r, b, p) == Zeros(|p|)
    ensures r == [b] + Zeros(|p| - 1)
  {
    var s := Step(r, b, p);
    assert !s[|p| - 1];
    assert ShiftIn(r, false)[|p| - 1] == false;
    assert r[0] == b;
    forall i | 1 <= i < |p|
      ensures !r[i]
    {
      assert s[i - 1] == ShiftIn(r, false)[i - 1];
    }
  }

  lemma {:induction false} ZerosInjective(r: Word, n: nat, p: Word)
    requires 0 < |r| == |p| && p[|p| - 1] && Steps(r, Zeros(n), p) == Zeros(|p|)
    ensures r == Zeros(|p|)
    decreases n
  {
    if n > 0 {
      ZerosSnoc(n - 1);
      StepsSnoc(r, Zeros(n - 1), false, p);
      StepInjective(Steps(r, Zeros(n - 1), p), false, p);
      ZerosSnoc(|p| - 1);
      ZerosInjective(r, n - 1, p);
    }
  }

  /** No burst of at most a register's width goes unnoticed. */
  lemma BurstDetected(r: Word, m: Word, before: nat, burst: Word, after: nat, p: Word)
    requires 0 < |r| == |p| && p[|p| - 1] && |m| == before + |burst| + after
    requires |burst| <= |p| && burst != Zeros(|burst|)
    ensures Steps(r, Xor(m, Zeros(before) + burst + Zeros(after)), p) != Steps(r, m, p)
  {
    var z, error := Zeros(|p|), Zeros(before) + burst + Zeros(after);
    XorZeros(r);
    StepsLinear(r, z, m, error, p);
    if Steps(r, Xor(m, error), p) == Steps(r, m, p) {
      XorCancels(Steps(r, m, p), Steps(z, error, p));
      ErrorPart(before, burst, after, p);
      ZerosInjective(Steps(z, burst, p), after, p);
      BurstRemains(burst, p);
    }
  }

  lemma XorCancels(a: Word, b: Word)
    requires |a| == |b| && Xor(a, b) == a
    ensures b == Zeros(|b|)
  {
    forall i | 0 <= i < |b|
      ensures !b[i]
    {
      assert Xor(a, b)[i] == a[i];
    }
  }

  lemma ErrorPart(before: nat, burst: Word, after: nat, p: Word)
    requires 0 < |p|
    ensures Steps(Zeros(|p|), Zeros(before) + burst + Zeros(after), p) ==
            Steps(Steps(Zeros(|p|), burst, p), Zeros(after), p)
  {
    var z := Zeros(|p|);
    StepsAppend(z, Zeros(before) + burst, Zeros(after), p);
    StepsAppend(z, Zeros(before), burst, p);
    ZeroSteps(before, p);
  }

  lemma StaysNonZero(burst: Word, n: nat)
    requires burst != Zeros(|burst|)
    ensures burst + Zeros(n) != Zeros(|burst| + n)
  {
    var i :| 0 <= i < |burst| && burst[i];
    assert (burst + Zeros(n))[i];
  }

  lemma BurstAtTop(burst: Word, p: Word)
    requires |burst| <= |p| && |p| > 0
    ensures Steps(burst + Zeros(|p| - |burst|), Zeros(|burst|), p) == Steps(Zeros(|p|), burst, p)
  {
    var high := burst + Zeros(|p| - |burst|);
    XorZeros(high);
    XorZeros(burst);
    FoldIn(Zeros(|p|), burst, Zeros(|burst|), p);
  }

  lemma BurstRemains(burst: Word, p: Word)
    requires |burst| <= |p| && |p| > 0 && p[|p| - 1] && burst != Zeros(|burst|)
    ensures Steps(Zeros(|p|), burst, p) != Zeros(|p|)
  {
    StaysNonZero(burst, |p| - |burst|);
    BurstAtTop(burst, p);
    if Steps(Zeros(|p|), burst, p) == Zeros(|p|) {
      ZerosInjective(burst + Zeros(|p| - |burst|), |burst|, p);
    }
  }
}
