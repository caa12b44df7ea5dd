/** The two CRC computers as objects, and the functions built on them. */
module CrcComputers {
  import opened Bits
  import opened CrcDivision
  import opened Crc

  lemma OneStep(r: Word, bit: bool, p: Word)
    requires 0 < |r| == |p|
    ensures Steps(r, Reflected(false, [bit][0..]), p) == Step(r, bit, p)
  {
    var m := [bit][0..];
    assert m == [bit] && m[1..] == [];
    assert Steps(Step(r, bit, p), m[1..], p) == Step(r, bit, p);
  }

  /** Divides bit by bit. */
  class CrcBasic {
    var rem: Word
    var poly: Word
    var init: Word
    var final: Word
    var reflectIn: bool
    var reflectRem: bool

    predicate Valid()
      reads this
    {
      0 < |rem| == |poly| == |init| == |final|
    }

    function Params(): Parameters
      reads this
    {
      Parameters(poly, init, final, reflectIn, reflectRem)
    }

    constructor (truncatedPolynomial: Word, initialRemainder: Word, finalXorValue: Word, reflectInput: bool,
                 reflectRemainder: bool)
      requires 0 < |truncatedPolynomial| == |initialRemainder| == |finalXorValue|
      ensures Valid() && rem == initialRemainder
      ensures Params() == Parameters(truncatedPolynomial, initialRemainder, finalXorValue, reflectInput,
              reflectRemainder)
    {
      rem, poly := initialRemainder, truncatedPolynomial;
      init, final := initialRemainder, finalXorValue;
      reflectIn, reflectRem := reflectInput, reflectRemainder;
    }

    method ProcessBit(bit: bool)
      requires Valid()
      modifies this`rem
      ensures Valid() && rem == Step(old(rem), bit, poly)
    {
      rem := ModuloWordUpdate(rem, [bit], poly, 1, false);
      OneStep(old(rem), bit, poly);
    }

    /** The low bits of a byte, from the highest down, whatever the reflection. */
    method ProcessBits(bits: Byte, bitLength: nat)
      requires Valid() && 0 < bitLength <= CHAR_BIT
      modifies this`rem
      ensures Valid() && rem == Steps(old(rem), bits[CHAR_BIT - bitLength..], poly)
    {
      ghost var m := bits[CHAR_BIT - bitLength..];
      var left := bits[CHAR_BIT - bitLength..] + Zeros(CHAR_BIT - bitLength);
      for i := 0 to bitLength
        invariant Valid() && |left| == CHAR_BIT && left[..bitLength - i] == m[i..]
        invariant rem == Steps(old(rem), m[..i], poly)
      {
        assert left[0] == left[..bitLength - i][0] == m[i];
        Snoc(m, i);
        StepsSnoc(old(rem), m[..i], m[i], poly);
        ProcessBit(left[0]);
        assert m[i..][1..] == m[i + 1..];
        assert ShiftIn(left, false)[..bitLength - i - 1] == left[..bitLength - i][1..];
        left := ShiftIn(left, false);
      }
      assert m[..bitLength] == m;
    }

    method ProcessByte(byte: Byte)
      requires Valid()
      modifies this`rem
      ensures Valid() && rem == Steps(old(rem), Reflected(reflectIn, byte), poly)
    {
      var bits := if reflectIn then Reverse(byte) else byte;
      assert bits[0..] == bits;
      ProcessBits(bits, CHAR_BIT);
    }

    method ProcessBytes(bytes: array<Byte>)
      requires Valid()
      modifies this`rem
      ensures Valid() && rem == Steps(old(rem), InputBits(reflectIn, bytes[..]), poly)
    {
      for i := 0 to bytes.Length
        invariant Valid() && rem == Steps(old(rem), InputBits(reflectIn, bytes[..i]), poly)
      {
        assert bytes[..][..i] == bytes[..i] && bytes[..][..i + 1] == bytes[..i + 1];
        NextByte(old(rem), rem, reflectIn, bytes[..], i, poly);
        ProcessByte(bytes[i]);
      }
      assert bytes[..bytes.Length] == bytes[..];
    }

    method Checksum() returns (c: Word)
      requires Valid()
      ensures c == Params().Output(rem)
    {
      var r := rem;
      if reflectRem {
        assert rem[|rem| - |poly|..] == rem;
        r := ReflectUnsigned(rem, |poly|);
      }
      c := Xor(r, final);
    }
  }

  /** Divides byte by byte with a table; for reflected input it keeps its remainder reflected. */
  class CrcOptimal {
    const p: Parameters
    const table: array<Word>
    var rem: Word

    ghost predicate Valid()
      reads this, table
    {
      p.Fits() && |p.poly| >= 8 && |rem| == |p.poly| && IsTable(table, p.poly, p.reflectIn)
    }

    /** The remainder as the polynomial it stands for. */
    function Interim(): (r: Word)
      reads this
      ensures |r| == |rem|
    {
      Reflected(p.reflectIn, rem)
    }

    constructor (p: Parameters)
      requires p.Fits() && |p.poly| >= 8
      ensures Valid() && this.p == p && Interim() == p.init && fresh(table)
    {
      var t := MakePartialXorProductsTable(p.poly, p.reflectIn);
      this.p := p;
      table := t;
      rem := Reflected(p.reflectIn, p.init);
      new;
      ReverseTwice(p.init);
    }

    method ProcessBytes(bytes: array<Byte>)
      requires Valid()
      modifies this`rem
      ensures Valid() && Interim() == Steps(old(Interim()), InputBits(p.reflectIn, bytes[..]), p.poly)
    {
      if p.reflectIn {
        rem := ReflectedUpdate(rem, bytes, table, p.poly);
      } else {
        rem := DirectUpdate(rem, bytes, table, p.poly);
      }
    }

    method ProcessByte(byte: Byte)
      requires Valid()
      modifies this`rem
      ensures Valid() && Interim() == Steps(old(Interim()), Reflected(p.reflectIn, byte), p.poly)
    {
      var one := new Byte[1](_ => byte);
      assert one[..] == [byte];
      assert InputBits(p.reflectIn, [byte]) == Reflected(p.reflectIn, byte);
      ProcessBytes(one);
    }

    /** The output is reflected only if the remainder is not already the right way round. */
    method Checksum() returns (c: Word)
      requires Valid()
      ensures c == p.Output(Interim())
    {
      var r := if p.reflectRem != p.reflectIn then Reverse(rem) else rem;
      ReverseTwice(rem);
      c := Xor(r, p.final);
    }
  }

  method ComputeCrc(p: Parameters, bytes: array<Byte>) returns (c: Word)
    requires p.Fits() && |p.poly| >= 8
    ensures c == p.Checksum(bytes[..])
  {
    var computer := new CrcOptimal(p);
    computer.ProcessBytes(bytes);
    c := computer.Checksum();
  }

  method AugmentedCrc(poly: Word, bytes: array<Byte>, initialRemainder: Word) returns (r: Word)
    requires 8 <= |poly| == |initialRemainder|
    ensures r == AugSteps(initialRemainder, InputBits(false, bytes[..]), poly)
  {
    var table := MakePartialXorProductsTable(poly, false);
    r := AugmentedUpdate(initialRemainder, bytes, table, poly);
  }
}
