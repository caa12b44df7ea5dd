/** The bit-wise and the table-driven CRC computers, for registers as wide as the CRC. */
module Crc {
  import opened Bits
  import opened CrcDivision

  const CHAR_BIT: nat := 8
  const BYTE_VALUES: nat := 256

  type Byte = b: Word | |b| == 8 witness Zeros(8)

  // ---------- specification ----------

  /** The bits of a block in the order they are divided. */
  function InputBits(reflect: bool, bytes: seq<Byte>): (m: Word)
    ensures |m| == 8 * |bytes|
  {
    if bytes == [] then [] else Reflected(reflect, bytes[0]) + InputBits(reflect, bytes[1..])
  }

  datatype Parameters = Parameters(poly: Word, init: Word, final: Word, reflectIn: bool, reflectRem: bool) {
    predicate Fits() {
      0 < |poly| == |init| == |final|
    }

    function Output(r: Word): (c: Word)
      requires |r| == |final|
      ensures |c| == |r|
    {
      Xor(Reflected(reflectRem, r), final)
    }

    /** The remainder of the division, reflected and masked as the parameters say. */
    function Checksum(bytes: seq<Byte>): Word
      requires Fits()
    {
      Output(Steps(init, InputBits(reflectIn, bytes), poly))
    }
  }

  lemma {:induction false} InputAppend(reflect: bool, a: seq<Byte>, b: seq<Byte>)
    ensures InputBits(reflect, a + b) == InputBits(reflect, a) + InputBits(reflect, b)
  {
    if a == [] {
      assert a + b == b;
    } else {
      assert (a + b)[1..] == a[1..] + b;
      InputAppend(reflect, a[1..], b);
    }
  }

  // ---------- division loops ----------

  /** A division step; the new bit is added to the register's highest bit first. */
  method DivideBit(remainder: Word, bit: bool, divisor: Word) returns (r: Word)
    requires 0 < |remainder| == |divisor|
    ensures r == Step(remainder, bit, divisor)
  {
    r := XorIf(bit, remainder, [true] + Zeros(|remainder| - 1));
    var quotient := r[0];
    assert ShiftIn(r, false) == ShiftIn(remainder, false);
    r := ShiftIn(r, false);
    r := XorIf(quotient, r, divisor);
  }

  function ShiftDown(w: Word): (v: Word)
    requires w != []
    ensures |v| == |w|
  {
    [false] + w[..|w| - 1]
  }

  predicate ReadsAt(w: Word, m: Word, i: nat, j: nat) {
    i + j < |m| ==> j < |w| && w[|w| - 1 - j] == m[i + j]
  }

  /** Read from its low end, the word gives the bits of m from the i-th on. */
  ghost predicate Unread(w: Word, m: Word, i: nat) {
    forall j: nat :: ReadsAt(w, m, i, j)
  }

  lemma UnreadAtFirst(x: Word, w: Word, n: nat, reflect: bool)
    requires 0 < n <= |x| && w == x[..|x| - n] + Reflected(!reflect, x[|x| - n..])
    ensures |w| == |x| && Unread(w, Reflected(reflect, x[|x| - n..]), 0)
  {
    var m, first := Reflected(reflect, x[|x| - n..]), 0;
    forall j: nat
      ensures ReadsAt(w, m, first, j)
    {
    }
  }

  lemma UnreadNext(w: Word, m: Word, i: nat)
    requires Unread(w, m, i) && i < |m|
    ensures w != [] && w[|w| - 1] == m[i] && Unread(ShiftDown(w), m, i + 1)
  {
    assert ReadsAt(w, m, i, 0);
    var next := i + 1;
    forall j: nat
      ensures ReadsAt(ShiftDown(w), m, next, j)
    {
      assert ReadsAt(w, m, i, j + 1);
    }
  }

  lemma Snoc(m: Word, i: nat)
    requires i < |m|
    ensures m[..i + 1] == m[..i] + [m[i]]
  {
  }

  /** The low n bits of a word are divided, from the highest down or, reflected, from the lowest up. */
  method ModuloWordUpdate(remainder: Word, newDividendBits: Word, divisor: Word, n: nat, reflect: bool)
    returns (r: Word)
    requires 0 < |remainder| == |divisor| && 0 < n <= |newDividendBits|
    ensures r == Steps(remainder, Reflected(reflect, newDividendBits[|newDividendBits| - n..]), divisor)
  {
    ghost var m := Reflected(reflect, newDividendBits[|newDividendBits| - n..]);
    r := remainder;
    var bits := ReflectOptionally(newDividendBits, !reflect, n);
    UnreadAtFirst(newDividendBits, bits, n, reflect);
    for i := 0 to n
      invariant |r| == |remainder| && |bits| == |newDividendBits| && Unread(bits, m, i)
      invariant r == Steps(remainder, m[..i], divisor)
    {
      UnreadNext(bits, m, i);
      Snoc(m, i);
      StepsSnoc(remainder, m[..i], m[i], divisor);
      r := DivideBit(r, bits[|bits| - 1], divisor);
      bits := ShiftDown(bits);
    }
    assert m[..n] == m;
  }

  /** The same, for plain long division. */
  method AugmentedModuloWordUpdate(remainder: Word, newDividendBits: Word, divisor: Word, n: nat, reflect: bool)
    returns (r: Word)
    requires 0 < |remainder| == |divisor| && 0 < n <= |newDividendBits|
    ensures r == AugSteps(remainder, Reflected(reflect, newDividendBits[|newDividendBits| - n..]), divisor)
  {
    ghost var m := Reflected(reflect, newDividendBits[|newDividendBits| - n..]);
    r := remainder;
    var bits := ReflectOptionally(newDividendBits, !reflect, n);
    UnreadAtFirst(newDividendBits, bits, n, reflect);
    for i := 0 to n
      invariant |r| == |remainder| && |bits| == |newDividendBits| && Unread(bits, m, i)
      invariant r == AugSteps(remainder, m[..i], divisor)
    {
      UnreadNext(bits, m, i);
      Snoc(m, i);
      AugStepsAppend(remainder, m[..i], [m[i]], divisor);
      var quotient := r[0];
      r := ShiftIn(r, bits[|bits| - 1]);
      r := XorIf(quotient, r, divisor);
      bits := ShiftDown(bits);
    }
    assert m[..n] == m;
  }

  // ---------- the table ----------

  /** The effect of a byte on an empty register; for reflected bytes, on a reflected register. */
  function Entry(poly: Word, reflect: bool, d: Byte): (e: Word)
    requires |poly| > 0
    ensures |e| == |poly|
  {
    Reflected(reflect, Steps(Zeros(|poly|), Reflected(reflect, d), poly))
  }

  ghost predicate IsTable(t: array<Word>, poly: Word, reflect: bool)
    requires |poly| > 0
    reads t
  {
    t.Length == BYTE_VALUES && forall d: Byte :: EntryOk(t, poly, reflect, d)
  }

  ghost predicate EntryOk(t: array<Word>, poly: Word, reflect: bool, d: Byte)
    requires t.Length == BYTE_VALUES && |poly| > 0
    reads t
  {
    Index(d) < t.Length && t[Index(d)] == Entry(poly, reflect, d)
  }

  function Index(d: Byte): (i: nat)
    ensures i < BYTE_VALUES
  {
    assert Pow2(8) == 256;
    Value(d)
  }

  lemma IndexInjective(d: Byte, e: Byte)
    requires Index(d) == Index(e)
    ensures d == e
  {
    FromValueOf(d);
    FromValueOf(e);
  }

  /** Every byte is the reflection of a dividend. */
  lemma DividendOf(d: Byte, reflect: bool) returns (k: nat)
    ensures k < BYTE_VALUES && Reflected(reflect, FromValue(8, k)) == d
  {
    k := Index(Reflected(reflect, d));
    FromValueOf(Reflected(reflect, d));
    ReverseTwice(d);
  }

  lemma DividendsDiffer(j: nat, k: nat, reflect: bool)
    requires j < BYTE_VALUES && k < BYTE_VALUES && j != k
    ensures Index(Reflected(reflect, FromValue(8, j))) != Index(Reflected(reflect, FromValue(8, k)))
  {
    var a, b := FromValue(8, j), FromValue(8, k);
    assert Pow2(8) == 256;
    ValueFrom(8, j);
    ValueFrom(8, k);
    ReverseTwice(a);
    ReverseTwice(b);
    if Index(Reflected(reflect, a)) == Index(Reflected(reflect, b)) {
      IndexInjective(Reflected(reflect, a), Reflected(reflect, b));
    }
  }

  method MakeEntry(dividend: nat, poly: Word, reflect: bool) returns (at: Byte, entry: Word)
    requires |poly| > 0 && dividend < BYTE_VALUES
    ensures at == Reflected(reflect, FromValue(8, dividend)) && entry == Entry(poly, reflect, at)
  {
    var d := FromValue(8, dividend);
    var remainder := ModuloWordUpdate(Zeros(|poly|), d, poly, CHAR_BIT, false);
    assert d[|d| - CHAR_BIT..] == d && d[..|d| - CHAR_BIT] == [];
    var place := ReflectOptionally(d, reflect, CHAR_BIT);
    assert remainder[|poly| - |poly|..] == remainder && remainder[..|poly| - |poly|] == [];
    entry := ReflectOptionally(remainder, reflect, |poly|);
    assert place == Reflected(reflect, d);
    at := place;
    ReverseTwice(d);
  }

  method MakePartialXorProductsTable(poly: Word, reflect: bool) returns (result: array<Word>)
    requires |poly| > 0
    ensures fresh(result) && IsTable(result, poly, reflect)
  {
    result := new Word[BYTE_VALUES];
    for dividend := 0 to BYTE_VALUES
      invariant forall k: nat :: k < dividend ==> EntryOk(result, poly, reflect, Reflected(reflect, FromValue(8, k)))
    {
      var at, entry := MakeEntry(dividend, poly, reflect);
      forall k: nat | k < dividend
        ensures Index(Reflected(reflect, FromValue(8, k))) != Index(at)
      {
        DividendsDiffer(k, dividend, reflect);
      }
      result[Index(at)] := entry;
    }
    forall d: Byte
      ensures EntryOk(result, poly, reflect, d)
    {
      var k := DividendOf(d, reflect);
    }
  }

  // ---------- table-driven updates ----------

  /** One byte through the table, for an unreflected register. */
  lemma DirectByte(r: Word, byte: Byte, poly: Word)
    requires 8 <= |r| == |poly|
    ensures Steps(r, byte, poly) == Xor(r[8..] + Zeros(8), Entry(poly, false, Xor(r[..8], byte)))
  {
    ManySteps(r, byte, poly);
  }

  lemma ReflectedIndex(s: Word, byte: Byte)
    requires 8 <= |s|
    ensures Xor(Reverse(s)[..8], Reverse(byte)) == Reverse(Xor(s[|s| - 8..], byte))
  {
  }

  lemma ReflectedShift(s: Word)
    requires 8 <= |s|
    ensures Reverse(Reverse(s)[8..] + Zeros(8)) == Zeros(8) + s[..|s| - 8]
  {
  }

  /** One byte through the table, for a reflected register. */
  lemma ReflectedByte(s: Word, byte: Byte, poly: Word)
    requires 8 <= |s| == |poly|
    ensures Reverse(Steps(Reverse(s), Reverse(byte), poly))
         == Xor(Zeros(8) + s[..|s| - 8], Entry(poly, true, Xor(s[|s| - 8..], byte)))
  {
    var x := Reverse(Xor(s[|s| - 8..], byte));
    ManySteps(Reverse(s), Reverse(byte), poly);
    ReflectedIndex(s, byte);
    ReverseXor(Reverse(s)[8..] + Zeros(8), Steps(Zeros(|poly|), x, poly));
    ReflectedShift(s);
  }

  method DirectUpdate(remainder: Word, bytes: array<Byte>, table: array<Word>, ghost poly: Word) returns (r: Word)
    requires 8 <= |remainder| == |poly| && IsTable(table, poly, false)
    ensures r == Steps(remainder, InputBits(false, bytes[..]), poly)
  {
    r := remainder;
    for i := 0 to bytes.Length
      invariant |r| == |remainder| && r == Steps(remainder, InputBits(false, bytes[..i]), poly)
    {
      var index: Byte := Xor(r[..8], bytes[i]);
      NextByte(remainder, r, false, bytes[..], i, poly);
      DirectByte(r, bytes[i], poly);
      assert EntryOk(table, poly, false, index);
      assert bytes[..][..i] == bytes[..i] && bytes[..][..i + 1] == bytes[..i + 1];
      r := Xor(r[8..] + Zeros(8), table[Index(index)]);
    }
    assert bytes[..bytes.Length] == bytes[..];
  }

  method ReflectedUpdate(remainder: Word, bytes: array<Byte>, table: array<Word>, ghost poly: Word) returns (r: Word)
    requires 8 <= |remainder| == |poly| && IsTable(table, poly, true)
    ensures |r| == |remainder| && Reverse(r) == Steps(Reverse(remainder), InputBits(true, bytes[..]), poly)
  {
    r := remainder;
    for i := 0 to bytes.Length
      invariant |r| == |remainder| && Reverse(r) == Steps(Reverse(remainder), InputBits(true, bytes[..i]), poly)
    {
      var index: Byte := Xor(r[|r| - 8..], bytes[i]);
      NextByte(Reverse(remainder), Reverse(r), true, bytes[..], i, poly);
      ReflectedByte(r, bytes[i], poly);
      ReverseTwice(Steps(Reverse(r), Reverse(bytes[i]), poly));
      assert EntryOk(table, poly, true, index);
      assert bytes[..][..i] == bytes[..i] && bytes[..][..i + 1] == bytes[..i + 1];
      r := Xor(Zeros(8) + r[..|r| - 8], table[Index(index)]);
    }
    assert bytes[..bytes.Length] == bytes[..];
  }

  lemma NextByte(start: Word, r: Word, reflect: bool, bytes: seq<Byte>, i: nat, poly: Word)
    requires 0 < |start| == |poly| && i < |bytes| && r == Steps(start, InputBits(reflect, bytes[..i]), poly)
    ensures Steps(start, InputBits(reflect, bytes[..i + 1]), poly) == Steps(r, Reflected(reflect, bytes[i]), poly)
  {
    assert bytes[..i + 1] == bytes[..i] + [bytes[i]];
    InputAppend(reflect, bytes[..i], [bytes[i]]);
    assert InputBits(reflect, [bytes[i]]) == Reflected(reflect, bytes[i]);
    StepsAppend(start, InputBits(reflect, bytes[..i]), Reflected(reflect, bytes[i]), poly);
  }

  /** Long division by the byte uses the same table. */
  lemma AugmentedByte(r: Word, byte: Byte, poly: Word)
    requires 8 <= |r| == |poly|
    ensures AugSteps(r, byte, poly) == Xor(r[8..] + byte, Entry(poly, false, r[..8]))
  {
    AugStepsSplit(r, byte, poly);
    ManySteps(r, Zeros(8), poly);
    XorZeros(r[..8]);
    var e := Entry(poly, false, r[..8]);
    assert Xor(Xor(r[8..] + Zeros(8), e), Zeros(|poly| - 8) + byte) == Xor(r[8..] + byte, e);
  }

  method AugmentedUpdate(remainder: Word, bytes: array<Byte>, table: array<Word>, ghost poly: Word) returns (r: Word)
    requires 8 <= |remainder| == |poly| && IsTable(table, poly, false)
    ensures r == AugSteps(remainder, InputBits(false, bytes[..]), poly)
  {
    r := remainder;
    for i := 0 to bytes.Length
      invariant |r| == |remainder| && r == AugSteps(remainder, InputBits(false, bytes[..i]), poly)
    {
      var index: Byte := r[..8];
      assert bytes[..i + 1] == bytes[..i] + [bytes[i]];
      InputAppend(false, bytes[..i], [bytes[i]]);
      assert InputBits(false, [bytes[i]]) == bytes[i];
      AugStepsAppend(remainder, InputBits(false, bytes[..i]), bytes[i], poly);
      AugmentedByte(r, bytes[i], poly);
      assert EntryOk(table, poly, false, index);
      r := Xor(r[8..] + bytes[i], table[Index(index)]);
    }
    assert bytes[..bytes.Length] == bytes[..];
  }
}
