/** Machine words as bit sequences, the most significant bit first. */
module Bits {
  type Word = seq<bool>

  function Zeros(n: nat): (z: Word)
    ensures |z| == n && forall i :: 0 <= i < n ==> !z[i]
  {
    seq(n, i => false)
  }

  function Xor(a: Word, b: Word): (c: Word)
    requires |a| == |b|
    ensures |c| == |a| && forall i :: 0 <= i < |a| ==> c[i] == (a[i] != b[i])
  {
    seq(|a|, i requires 0 <= i < |a| => a[i] != b[i])
  }

  function Reverse(a: Word): (r: Word)
    ensures |r| == |a| && forall i :: 0 <= i < |a| ==> r[i] == a[|a| - 1 - i]
  {
    seq(|a|, i requires 0 <= i < |a| => a[|a| - 1 - i])
  }

  function Reflected(reflect: bool, a: Word): Word {
    if reflect then Reverse(a) else a
  }

  // ---------- unsigned values ----------

  function Pow2(n: nat): (p: nat)
    ensures p > 0
  {
    if n == 0 then 1 else 2 * Pow2(n - 1)
  }

  function Value(a: Word): (v: nat)
    ensures v < Pow2(|a|)
  {
    if a == [] then 0 else 2 * Value(a[..|a| - 1]) + (if a[|a| - 1] then 1 else 0)
  }

  function FromValue(n: nat, v: nat): (a: Word)
    ensures |a| == n
  {
    if n == 0 then [] else FromValue(n - 1, v / 2) + [v % 2 == 1]
  }

  lemma {:induction false} ValueFrom(n: nat, v: nat)
    requires v < Pow2(n)
    ensures Value(FromValue(n, v)) == v
  {
    if n > 0 {
      ValueFrom(n - 1, v / 2);
      assert FromValue(n, v)[..n - 1] == FromValue(n - 1, v / 2);
    }
  }

  lemma {:induction false} FromValueOf(a: Word)
    ensures FromValue(|a|, Value(a)) == a
    decreases |a|
  {
    if a != [] {
      FromValueOf(a[..|a| - 1]);
      assert a == a[..|a| - 1] + [a[|a| - 1]];
    }
  }

  // ---------- reflection ----------

  lemma ReverseTwice(a: Word)
    ensures Reverse(Reverse(a)) == a
  {
  }

  lemma ReverseXor(a: Word, b: Word)
    requires |a| == |b|
    ensures Reverse(Xor(a, b)) == Xor(Reverse(a), Reverse(b))
  {
  }

  /**
   The low n bits of a word change places, from the outside inwards; a pair is flipped when its bits differ.
   The other bits stay.
   */
  method ReflectUnsigned(x: Word, n: nat) returns (r: Word)
    requires 0 < n <= |x|
    ensures r == x[..|x| - n] + Reverse(x[|x| - n..])
  {
    r := x;
    var l, h := |x| - 1, |x| - n;
    while h < l
      invariant |x| - n <= h && l + h == 2 * |x| - n - 1 && h <= l + 1 && |r| == |x|
      invariant forall k :: 0 <= k < |x| - n || h <= k <= l ==> r[k] == x[k]
      invariant forall k :: |x| - n <= k < h || l < k < |x| ==> r[k] == x[2 * |x| - n - 1 - k]
    {
      if r[h] != r[l] {
        r := r[h := !r[h]][l := !r[l]];
      }
      h, l := h + 1, l - 1;
    }
  }

  method ReflectOptionally(x: Word, reflect: bool, n: nat) returns (r: Word)
    requires 0 < n <= |x|
    ensures r == x[..|x| - n] + Reflected(reflect, x[|x| - n..])
  {
    if reflect {
      r := ReflectUnsigned(x, n);
    } else {
      r := x;
    }
  }
}
