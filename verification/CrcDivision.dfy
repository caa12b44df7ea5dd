/**
 The two division loops of the CRC computers, and what they compute: remainders of polynomials over the field
 of two elements. A register holds the coefficients of a remainder, the highest first.
 */
module CrcDivision {
  import opened Bits

  function ShiftIn(r: Word, b: bool): (s: Word)
    requires |r| > 0
    ensures |s| == |r|
  {
    r[1..] + [b]
  }

  function XorIf(c: bool, r: Word, p: Word): (s: Word)
    requires |r| == |p|
    ensures |s| == |r|
  {
    if c then Xor(r, p) else r
  }

  // ---------- one division step, and many ----------

  /** A step of the loop that needs no zero bits after the message. */
  function Step(r: Word, b: bool, p: Word): (s: Word)
    requires 0 < |r| == |p|
    ensures |s| == |r|
  {
    XorIf(r[0] != b, ShiftIn(r, false), p)
  }

  function Steps(r: Word, m: Word, p: Word): (s: Word)
    requires 0 < |r| == |p|
    ensures |s| == |r|
    decreases |m|
  {
    if m == [] then r else Steps(Step(r, m[0], p), m[1..], p)
  }

  /** A step of plain long division. */
  function AugStep(r: Word, b: bool, p: Word): (s: Word)
    requires 0 < |r| == |p|
    ensures |s| == |r|
  {
    XorIf(r[0], ShiftIn(r, b), p)
  }

  function AugSteps(r: Word, m: Word, p: Word): (s: Word)
    requires 0 < |r| == |p|
    ensures |s| == |r|
    decreases |m|
  {
    if m == [] then r else AugSteps(AugStep(r, m[0], p), m[1..], p)
  }

  /** Data can be fed in pieces. */
  lemma {:induction false} StepsAppend(r: Word, a: Word, b: Word, p: Word)
    requires 0 < |r| == |p|
    ensures Steps(r, a + b, p) == Steps(Steps(r, a, p), b, p)
    decreases |a|
  {
    if a == [] {
      assert a + b == b;
    } else {
      assert (a + b)[1..] == a[1..] + b;
      StepsAppend(Step(r, a[0], p), a[1..], b, p);
    }
  }

  lemma {:induction false} AugStepsAppend(r: Word, a: Word, b: Word, p: Word)
    requires 0 < |r| == |p|
    ensures AugSteps(r, a + b, p) == AugSteps(AugSteps(r, a, p), b, p)
    decreases |a|
  {
    if a == [] {
      assert a + b == b;
    } else {
      assert (a + b)[1..] == a[1..] + b;
      AugStepsAppend(AugStep(r, a[0], p), a[1..], b, p);
    }
  }

  // ---------- linearity ----------

  lemma StepLinear(r: Word, s: Word, b: bool, c: bool, p: Word)
    requires 0 < |r| == |s| == |p|
    ensures Step(Xor(r, s), b != c, p) == Xor(Step(r, b, p), Step(s, c, p))
  {
  }

  lemma {:induction false} StepsLinear(r: Word, s: Word, a: Word, b: Word, p: Word)
    requires 0 < |r| == |s| == |p| && |a| == |b|
    ensures Steps(Xor(r, s), Xor(a, b), p) == Xor(Steps(r, a, p), Steps(s, b, p))
    decreases |a|
  {
    if a != [] {
      StepLinear(r, s, a[0], b[0], p);
      assert Xor(a, b)[1..] == Xor(a[1..], b[1..]);
      StepsLinear(Step(r, a[0], p), Step(s, b[0], p), a[1..], b[1..], p);
    }
  }

  lemma {:induction false} ZeroSteps(n: nat, p: Word)
    requires |p| > 0
    ensures Steps(Zeros(|p|), Zeros(n), p) == Zeros(|p|)
  {
    if n > 0 {
      assert Step(Zeros(|p|), false, p) == Zeros(|p|);
      assert Zeros(n)[1..] == Zeros(n - 1);
      ZeroSteps(n - 1, p);
    }
  }

  /** While the register's high bits are zero, zero message bits only shift it. */
  lemma {:induction false} ShiftOnly(t: Word, k: nat, p: Word)
    requires 0 < |p| == k + |t|
    ensures Steps(Zeros(k) + t, Zeros(k), p) == t + Zeros(k)
    decreases k
  {
    if k > 0 {
      assert Step(Zeros(k) + t, false, p) == Zeros(k - 1) + (t + [false]);
      assert Zeros(k)[1..] == Zeros(k - 1);
      ShiftOnly(t + [false], k - 1, p);
      assert t + [false] + Zeros(k - 1) == t + Zeros(k);
    } else {
      assert Zeros(0) + t == t + Zeros(0);
    }
  }

  // ---------- from single bits to table entries ----------

  /** A bit in the register's upper end and the message bit it meets have the same effect. */
  lemma {:induction false} FoldIn(r: Word, a: Word, m: Word, p: Word)
    requires 0 < |r| == |p| && |a| == |m| <= |p|
    ensures Steps(Xor(r, a + Zeros(|p| - |a|)), m, p) == Steps(r, Xor(a, m), p)
    decreases |m|
  {
    var pad := Zeros(|p| - |a|);
    if m == [] {
      assert Xor(r, a + pad) == r;
    } else {
      var rest := a[1..] + Zeros(|p| - |a| + 1);
      assert Step(Xor(r, a + pad), m[0], p) == Xor(Step(r, a[0] != m[0], p), rest);
      assert Xor(a, m)[1..] == Xor(a[1..], m[1..]);
      FoldIn(Step(r, a[0] != m[0], p), a[1..], m[1..], p);
    }
  }

  lemma HighAndLow(r: Word, k: nat)
    requires k <= |r|
    ensures Xor(Zeros(k) + r[k..], r[..k] + Zeros(|r[k..]|)) == r
  {
  }

  lemma XorZeros(a: Word)
    ensures Xor(a, Zeros(|a|)) == a == Xor(Zeros(|a|), a)
  {
  }

  lemma LowSteps(t: Word, x: Word, p: Word)
    requires 0 < |p| == |x| + |t|
    ensures Steps(Zeros(|x|) + t, x, p) == Xor(t + Zeros(|x|), Steps(Zeros(|p|), x, p))
  {
    var low := Zeros(|x|) + t;
    XorZeros(low);
    XorZeros(x);
    StepsLinear(low, Zeros(|p|), Zeros(|x|), x, p);
    ShiftOnly(t, |x|, p);
  }

  lemma FoldedSteps(t: Word, a: Word, m: Word, p: Word)
    requires 0 < |p| == |m| + |t| && |a| == |m|
    ensures Steps(Xor(Zeros(|m|) + t, a + Zeros(|t|)), m, p)
         == Xor(t + Zeros(|m|), Steps(Zeros(|p|), Xor(a, m), p))
  {
    FoldIn(Zeros(|m|) + t, a, m, p);
    LowSteps(t, Xor(a, m), p);
  }

  /** Several steps at once: shift, and add the effect of the bits that meet. */
  lemma ManySteps(r: Word, m: Word, p: Word)
    requires 0 < |r| == |p| && |m| <= |p|
    ensures Steps(r, m, p) == Xor(r[|m|..] + Zeros(|m|), Steps(Zeros(|p|), Xor(r[..|m|], m), p))
  {
    FoldedSteps(r[|m|..], r[..|m|], m, p);
    HighAndLow(r, |m|);
  }

  // ---------- the two kinds of division ----------

  lemma AugStepSplits(r: Word, b: bool, p: Word)
    requires 0 < |r| == |p|
    ensures AugStep(r, b, p) == Xor(Step(r, false, p), Zeros(|p| - 1) + [b])
  {
  }

  lemma StepsSnoc(r: Word, m: Word, b: bool, p: Word)
    requires 0 < |r| == |p|
    ensures Steps(r, m + [b], p) == Step(Steps(r, m, p), b, p)
  {
    StepsAppend(r, m, [b], p);
  }

  lemma ZerosSnoc(n: nat)
    ensures Zeros(n + 1) == Zeros(n) + [false] == [false] + Zeros(n)
  {
  }

  lemma ShiftPad(n: nat, m: Word, b: bool)
    requires n > 0
    ensures Xor(ShiftIn(Zeros(n) + m, false), Zeros(n + |m| - 1) + [b]) == Zeros(n - 1) + (m + [b])
  {
  }

  lemma XorAssociative(a: Word, b: Word, c: Word)
    requires |a| == |b| == |c|
    ensures Xor(Xor(a, b), c) == Xor(a, Xor(b, c))
  {
  }

  /** Up to a register's width, long division is the other division of zeros with the message added. */
  lemma {:induction false} AugStepsSplit(r: Word, m: Word, p: Word)
    requires 0 < |r| == |p| && |m| <= |p|
    ensures AugSteps(r, m, p) == Xor(Steps(r, Zeros(|m|), p), Zeros(|p| - |m|) + m)
    decreases |m|
  {
    if m == [] {
      XorZeros(r);
      assert Zeros(|p|) + m == Zeros(|p|);
    } else {
      var k := |m| - 1;
      var front, b := m[..k], m[k];
      assert m == front + [b];
      AugStepsAppend(r, front, [b], p);
      AugStepsSplit(r, front, p);
      ZerosSnoc(k);
      StepsSnoc(r, Zeros(k), false, p);
      var u, v := Steps(r, Zeros(k), p), Zeros(|p| - k) + front;
      AugStepSplits(Xor(u, v), b, p);
      StepLinear(u, v, false, false, p);
      ShiftPad(|p| - k, front, b);
      XorAssociative(Step(u, false, p), Step(v, false, p), Zeros(|p| - 1) + [b]);
    }
  }

  /** The low bit, moved up a register's width, is the divisor itself. */
  lemma UnitSteps(b: bool, p: Word)
    requires |p| > 0
    ensures Steps(Zeros(|p| - 1) + [b], Zeros(|p|), p) == Step(Zeros(|p|), b, p)
  {
    var k := |p| - 1;
    ZerosSnoc(k);
    StepsSnoc(Zeros(k) + [b], Zeros(k), false, p);
    ShiftOnly([b], k, p);
    assert ShiftIn([b] + Zeros(k), false) == ShiftIn(Zeros(|p|), false);
  }

  /** Zero message bits commute. */
  lemma ZerosCommute(r: Word, n: nat, p: Word)
    requires 0 < |r| == |p|
    ensures Steps(Step(r, false, p), Zeros(n), p) == Step(Steps(r, Zeros(n), p), false, p)
  {
    ZerosSnoc(n);
    StepsAppend(r, [false], Zeros(n), p);
    StepsSnoc(r, Zeros(n), false, p);
  }

  /** Long division followed by a register of zeros is the other division. */
  lemma {:induction false} Augmenting(r: Word, m: Word, p: Word)
    requires 0 < |r| == |p|
    ensures Steps(AugSteps(r, m, p), Zeros(|p|), p) == Steps(Steps(r, Zeros(|p|), p), m, p)
    decreases |m|
  {
    if m != [] {
      var z, b := Zeros(|p|), m[0];
      var u := Zeros(|p| - 1) + [b];
      AugStepSplits(r, b, p);
      StepsLinear(Step(r, false, p), u, z, z, p);
      assert Xor(z, z) == z;
      ZerosCommute(r, |p|, p);
      UnitSteps(b, p);
      StepLinear(Steps(r, z, p), z, false, b, p);
      assert Xor(Steps(r, z, p), z) == Steps(r, z, p);
      Augmenting(AugStep(r, b, p), m[1..], p);
    }
  }

  /** A message with a register of trailing bits: what long division leaves. */
  lemma AugmentedTail(m: Word, t: Word, p: Word)
    requires 0 < |p| == |t|
    ensures AugSteps(Zeros(|p|), m + t, p) == Xor(Steps(Zeros(|p|), m, p), t)
  {
    var z := Zeros(|p|);
    AugStepsAppend(z, m, t, p);
    AugStepsSplit(AugSteps(z, m, p), t, p);
    Augmenting(z, m, p);
    ZeroSteps(|p|, p);
    assert Zeros(0) + t == t;
  }

  /** Long division of the message with a checksum appended leaves zero exactly when the checksum is right. */
  lemma ChecksumCheck(m: Word, c: Word, p: Word)
    requires 0 < |p| == |c|
    ensures AugSteps(Zeros(|p|), m + Zeros(|p|), p) == Steps(Zeros(|p|), m, p)
    ensures AugSteps(Zeros(|p|), m + c, p) == Zeros(|p|) <==> c == Steps(Zeros(|p|), m, p)
  {
    var s := Steps(Zeros(|p|), m, p);
    AugmentedTail(m, Zeros(|p|), p);
    assert Xor(s, Zeros(|p|)) == s;
    AugmentedTail(m, c, p);
    if Xor(s, c) == Zeros(|p|) {
      forall i | 0 <= i < |p|
        ensures c[i] == s[i]
      {
        assert !Xor(s, c)[i];
      }
    }
    assert c == s ==> Xor(s, c) == Zeros(|p|);
  }

  // ---------- polynomial division ----------

  /** The divisor: the leading coefficient, which the parameter leaves out, and the others. */
  function Divisor(p: Word): Word {
    [true] + p
  }

  /** The product of polynomials, by the digits of the first. */
  function Times(q: Word, d: Word): (m: Word)
    requires |d| > 0
    ensures |m| == |q| + |d| - 1
  {
    if q == [] then Zeros(|d| - 1)
    else
      var front := Times(q[..|q| - 1], d) + [false];
      if q[|q| - 1] then Xor(front, Zeros(|q| - 1) + d) else front
  }

  /** The bits that the long division loop calls quotients. */
  function Quotients(r: Word, m: Word, p: Word): (q: Word)
    requires 0 < |r| == |p|
    ensures |q| == |m|
    decreases |m|
  {
    if m == [] then [] else Quotients(r, m[..|m| - 1], p) + [AugSteps(r, m[..|m| - 1], p)[0]]
  }

  predicate IsDivision(m: Word, q: Word, r: Word, p: Word)
    requires |p| == |r| && |q| == |m|
  {
    Zeros(|p|) + m == Xor(Times(q, Divisor(p)), Zeros(|m|) + r)
  }

  lemma {:induction false} LongDivision(m: Word, p: Word)
    requires |p| > 0
    ensures IsDivision(m, Quotients(Zeros(|p|), m, p), AugSteps(Zeros(|p|), m, p), p)
    decreases |m|
  {
    var z, d := Zeros(|p|), Divisor(p);
    if m == [] {
      assert Zeros(|p|) + m == Xor(Times([], d), Zeros(0) + z);
    } else {
      var k := |m| - 1;
      var front, b := m[..k], m[k];
      assert m == front + [b];
      LongDivision(front, p);
      AugStepsAppend(z, front, [b], p);
      var q, r := Quotients(z, front, p), AugSteps(z, front, p);
      assert AugSteps(r, [b], p) == AugStep(r, b, p);
      NextDigit(front, b, q, r, p);
      assert Quotients(z, m, p) == q + [r[0]];
    }
  }

  lemma NextDigit(m: Word, b: bool, q: Word, r: Word, p: Word)
    requires 0 < |p| == |r| && |q| == |m| && IsDivision(m, q, r, p)
    ensures IsDivision(m + [b], q + [r[0]], AugStep(r, b, p), p)
  {
    var d := Divisor(p);
    var w, k, more := |p|, |m|, q + [r[0]];
    assert more[..|more| - 1] == q;
    var was, now := Zeros(w) + m, Zeros(w) + (m + [b]);
    var t, u := Times(q, d) + [false], Times(more, d);
    var left := Xor(u, Zeros(k + 1) + AugStep(r, b, p));
    assert now == was + [b];
    assert now == Xor(t, Zeros(k) + r + [b]);
    forall i | 0 <= i < |now|
      ensures now[i] == left[i]
    {
      if i >= k + 1 {
        assert AugStep(r, b, p)[i - k - 1] == ((r + [b])[i - k] != (r[0] && p[i - k - 1]));
      }
    }
  }

  /** The divisor's leading coefficient makes quotient and remainder unique. */
  lemma {:induction false} DivisionUnique(m: Word, q: Word, r: Word, q1: Word, r1: Word, p: Word)
    requires 0 < |p| == |r| == |r1| && |q| == |q1| == |m|
    requires IsDivision(m, q, r, p) && IsDivision(m, q1, r1, p)
    ensures q == q1 && r == r1
    decreases |m|
  {
    var d := Divisor(p);
    var t, u := Times(q, d), Times(q1, d);
    if m == [] {
      assert forall i :: 0 <= i < |p| ==> Xor(t, Zeros(0) + r)[i] == r[i] && Xor(u, Zeros(0) + r1)[i] == r1[i];
    } else {
      var k := |m| - 1;
      Undo(m, q, r, p);
      Undo(m, q1, r1, p);
      DivisionUnique(m[..k], q[..k], Before(q, r, p), q1[..k], Before(q1, r1, p), p);
      assert q == q[..k] + [q[k]] && q1 == q1[..k] + [q1[k]];
      assert Before(q, r, p)[0] == q[k] && Before(q1, r1, p)[0] == q1[k];
      forall i | 0 <= i < |p|
        ensures r[i] == r1[i]
      {
        if i + 1 < |p| {
          assert Before(q, r, p)[i + 1] == Before(q1, r1, p)[i + 1];
        }
      }
    }
  }

  /** The remainder before the last digit. */
  function Before(q: Word, r: Word, p: Word): (s: Word)
    requires q != [] && 0 < |p| == |r|
    ensures |s| == |p| && s[0] == q[|q| - 1]
  {
    [q[|q| - 1]] + XorIf(q[|q| - 1], r, p)[..|p| - 1]
  }

  lemma Undo(m: Word, q: Word, r: Word, p: Word)
    requires 0 < |p| == |r| && |q| == |m| > 0 && IsDivision(m, q, r, p)
    ensures IsDivision(m[..|m| - 1], q[..|m| - 1], Before(q, r, p), p)
    ensures XorIf(q[|m| - 1], r, p)[|p| - 1] == m[|m| - 1]
  {
    var k, w := |m| - 1, |p|;
    var was, right := Zeros(w) + m[..k], Xor(Times(q[..k], Divisor(p)), Zeros(k) + Before(q, r, p));
    UndoAt(m, q, r, p, w + k);
    forall i | 0 <= i < w + k
      ensures was[i] == right[i]
    {
      UndoAt(m, q, r, p, i);
    }
    assert was == right;
  }

  /** One coefficient of both sides. */
  lemma UndoAt(m: Word, q: Word, r: Word, p: Word, i: nat)
    requires 0 < |p| == |r| && |q| == |m| > 0 && IsDivision(m, q, r, p) && i < |p| + |m|
    ensures i < |p| + |m| - 1 ==>
              (Zeros(|p|) + m[..|m| - 1])[i] ==
              Xor(Times(q[..|m| - 1], Divisor(p)), Zeros(|m| - 1) + Before(q, r, p))[i]
    ensures i == |p| + |m| - 1 ==> XorIf(q[|m| - 1], r, p)[|p| - 1] == m[|m| - 1]
  {
    var k, w, d := |m| - 1, |p|, Divisor(p);
    var now, t := Zeros(w) + m, Times(q, d);
    assert now == Xor(t, Zeros(k + 1) + r);
    assert now[i] == (t[i] != (Zeros(k + 1) + r)[i]);
    if i < w + k {
      assert (Times(q[..k], d) + [false])[i] == Times(q[..k], d)[i];
      if i >= k {
        assert (Zeros(k) + d)[i] == d[i - k];
      }
    }
  }
}
