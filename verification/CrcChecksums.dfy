/** What a checksum is, bit by bit: the remainder of the message, turned round and masked as the parameters say. */
module CrcChecksums {
  import opened Bits
  import opened CrcDivision
  import opened Crc
  import opened CrcTheorems

  // ---------- the bits of a block ----------

  /** Bit j of byte k: from the byte's lowest bit on if the input is reflected, else from its highest. */
  predicate BitsOfBlock(bits: Word, bytes: seq<Byte>, reflect: bool) {
    |bits| == 8 * |bytes| &&
    forall k, j :: 0 <= k < |bytes| && 0 <= j < 8 ==> BitOfBlock(bits, bytes, reflect, k, j)
  }

  predicate BitOfBlock(bits: Word, bytes: seq<Byte>, reflect: bool, k: nat, j: nat)
    requires |bits| == 8 * |bytes| && k < |bytes| && j < 8
  {
    bits[8 * k + j] == bytes[k][if reflect then 7 - j else j]
  }

  lemma {:induction false} InputBit(reflect: bool, bytes: seq<Byte>, k: nat, j: nat)
    requires k < |bytes| && j < 8
    ensures BitOfBlock(InputBits(reflect, bytes), bytes, reflect, k, j)
  {
    if k > 0 {
      InputBit(reflect, bytes[1..], k - 1, j);
    }
  }

  lemma InputIsBlock(bits: Word, bytes: seq<Byte>, reflect: bool)
    ensures BitsOfBlock(bits, bytes, reflect) <==> bits == InputBits(reflect, bytes)
  {
    forall k: nat, j: nat | k < |bytes| && j < 8
      ensures BitOfBlock(InputBits(reflect, bytes), bytes, reflect, k, j)
    {
      InputBit(reflect, bytes, k, j);
    }
    if BitsOfBlock(bits, bytes, reflect) {
      forall i | 0 <= i < |bits|
        ensures bits[i] == InputBits(reflect, bytes)[i]
      {
        var k, j := i / 8, i % 8;
        assert i == 8 * k + j;
        assert BitOfBlock(bits, bytes, reflect, k, j) && BitOfBlock(InputBits(reflect, bytes), bytes, reflect, k, j);
      }
    }
  }

  // ---------- the checksum ----------

  /** The mask flips just its own bits of the checksum. */
  lemma FinalMask(p: Parameters, bytes: seq<Byte>)
    requires p.Fits()
    ensures p.Checksum(bytes) == Xor(p.(final := Zeros(|p.poly|)).Checksum(bytes), p.final)
  {
  }

  /** Reflecting the remainder turns the checksum round, before the mask. */
  lemma ReflectedRemainder(p: Parameters, bytes: seq<Byte>)
    requires p.Fits() && p.final == Zeros(|p.poly|)
    ensures p.(reflectRem := true).Checksum(bytes) == Reverse(p.(reflectRem := false).Checksum(bytes))
  {
  }

  // ---------- the remainder ----------

  lemma {:induction false} AugStepsLinear(r: Word, s: Word, a: Word, b: Word, p: Word)
    requires 0 < |r| == |s| == |p| && |a| == |b|
    ensures AugSteps(Xor(r, s), Xor(a, b), p) == Xor(AugSteps(r, a, p), AugSteps(s, b, p))
    decreases |a|
  {
    if a != [] {
      assert AugStep(Xor(r, s), a[0] != b[0], p) == Xor(AugStep(r, a[0], p), AugStep(s, b[0], p));
      assert Xor(a, b)[1..] == Xor(a[1..], b[1..]);
      AugStepsLinear(AugStep(r, a[0], p), AugStep(s, b[0], p), a[1..], b[1..], p);
    }
  }

  lemma {:induction false} AugStepsZeros(r: Word, n: nat, p: Word)
    requires 0 < |r| == |p|
    ensures AugSteps(r, Zeros(n), p) == Steps(r, Zeros(n), p)
    decreases n
  {
    if n > 0 {
      assert Zeros(n)[1..] == Zeros(n - 1);
      AugStepsZeros(Step(r, false, p), n - 1, p);
    }
  }

  /** Long division of the initial value moved up by k places is k steps from it. */
  lemma InitialMoved(init: Word, k: nat, p: Word)
    requires 0 < |init| == |p|
    ensures AugSteps(Zeros(|p|), init + Zeros(k), p) == Steps(init, Zeros(k), p)
  {
    AugStepsAppend(Zeros(|p|), init, Zeros(k), p);
    AugStepsSplit(Zeros(|p|), init, p);
    ZeroSteps(|p|, p);
    XorZeros(init);
    assert Zeros(0) + init == init;
    AugStepsZeros(init, k, p);
  }

  /** The message moved up by the register's width, and the initial value flipped into its first bits. */
  function Dividend(bits: Word, init: Word): (d: Word)
    ensures |d| == |bits| + |init|
  {
    Xor(bits + Zeros(|init|), init + Zeros(|bits|))
  }

  lemma DividendSplits(bits: Word, init: Word, p: Word)
    requires 0 < |init| == |p|
    ensures AugSteps(Zeros(|p|), Dividend(bits, init), p) ==
              Xor(AugSteps(Zeros(|p|), bits + Zeros(|p|), p), AugSteps(Zeros(|p|), init + Zeros(|bits|), p))
  {
    AugStepsLinear(Zeros(|p|), Zeros(|p|), bits + Zeros(|p|), init + Zeros(|bits|), p);
    XorZeros(Zeros(|p|));
  }

  lemma StepsSplit(bits: Word, init: Word, p: Word)
    requires 0 < |init| == |p|
    ensures Steps(init, bits, p) == Xor(Steps(Zeros(|p|), bits, p), Steps(init, Zeros(|bits|), p))
  {
    StepsLinear(Zeros(|p|), init, bits, Zeros(|bits|), p);
    XorZeros(init);
    XorZeros(bits);
  }

  lemma MessageMoved(bits: Word, p: Word)
    requires 0 < |p|
    ensures AugSteps(Zeros(|p|), bits + Zeros(|p|), p) == Steps(Zeros(|p|), bits, p)
  {
    AugStepsAppend(Zeros(|p|), bits, Zeros(|p|), p);
    AugStepsZeros(AugSteps(Zeros(|p|), bits, p), |p|, p);
    Augmenting(Zeros(|p|), bits, p);
    ZeroSteps(|p|, p);
  }

  lemma StepsDivide(bits: Word, init: Word, p: Word)
    requires 0 < |init| == |p|
    ensures AugSteps(Zeros(|p|), Dividend(bits, init), p) == Steps(init, bits, p)
  {
    DividendSplits(bits, init, p);
    MessageMoved(bits, p);
    InitialMoved(init, |bits|, p);
    StepsSplit(bits, init, p);
  }

  /** The checksum has the bits of r, from the other end if the remainder is reflected, but for those of the mask. */
  predicate ShowsRemainder(c: Word, r: Word, p: Parameters) {
    && |c| == |r| == |p.final|
    && forall i :: 0 <= i < |c| ==> c[i] == (r[if p.reflectRem then |c| - 1 - i else i] != p.final[i])
  }

  /** The checksum of a block shows the one remainder that its bits and the initial value leave. */
  lemma ChecksumIsRemainder(p: Parameters, bytes: seq<Byte>, bits: Word, q: Word, r: Word)
    requires p.Fits() && BitsOfBlock(bits, bytes, p.reflectIn)
    requires |r| == |p.poly| && |q| == |bits| + |p.poly|
    requires IsDivision(Xor(bits + Zeros(|p.poly|), p.init + Zeros(|bits|)), q, r, p.poly)
    ensures ShowsRemainder(p.Checksum(bytes), r, p)
  {
    var d := Dividend(bits, p.init);
    InputIsBlock(bits, bytes, p.reflectIn);
    StepsDivide(bits, p.init, p.poly);
    LongDivision(d, p.poly);
    DivisionUnique(d, q, r, Quotients(Zeros(|p.poly|), d, p.poly), AugSteps(Zeros(|p.poly|), d, p.poly), p.poly);
  }

  /** There is such a remainder. */
  lemma HasRemainder(p: Parameters, bits: Word) returns (q: Word, r: Word)
    requires p.Fits()
    ensures |r| == |p.poly| && |q| == |bits| + |p.poly|
    ensures IsDivision(Xor(bits + Zeros(|p.poly|), p.init + Zeros(|bits|)), q, r, p.poly)
  {
    var d := Dividend(bits, p.init);
    LongDivision(d, p.poly);
    q, r := Quotients(Zeros(|p.poly|), d, p.poly), AugSteps(Zeros(|p.poly|), d, p.poly);
  }

  /** The checksum of nothing: the initial value. */
  lemma EmptyChecksum(p: Parameters)
    requires p.Fits()
    ensures ShowsRemainder(p.Checksum([]), p.init, p)
  {
  }

  lemma OutputInjective(p: Parameters, a: Word, b: Word)
    requires p.Fits() && |a| == |b| == |p.poly| && a != b
    ensures p.Output(a) != p.Output(b)
  {
    var i :| 0 <= i < |a| && a[i] != b[i];
    var j := if p.reflectRem then |a| - 1 - i else i;
    assert p.Output(a)[j] != p.Output(b)[j];
  }

  /** No burst of at most a register's width, in the order in which the bits are divided, keeps the checksum. */
  lemma BurstChangesChecksum(p: Parameters, m: seq<Byte>, n: seq<Byte>, bits: Word, before: nat, burst: Word,
    after: nat)
    requires p.Fits() && p.poly[|p.poly| - 1] && |bits| == before + |burst| + after
    requires |burst| <= |p.poly| && burst != Zeros(|burst|)
    requires BitsOfBlock(bits, m, p.reflectIn)
    requires BitsOfBlock(Xor(bits, Zeros(before) + burst + Zeros(after)), n, p.reflectIn)
    ensures p.Checksum(m) != p.Checksum(n)
  {
    InputIsBlock(bits, m, p.reflectIn);
    InputIsBlock(Xor(bits, Zeros(before) + burst + Zeros(after)), n, p.reflectIn);
    BurstDetected(p.init, bits, before, burst, after, p.poly);
    OutputInjective(p, Steps(p.init, bits, p.poly), Steps(p.init, InputBits(p.reflectIn, n), p.poly));
  }
}
