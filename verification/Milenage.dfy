/** The Milenage functions of `milenage.py` over an uninterpreted block cipher. */
module Milenage {
  import opened PyText
  import opened Octets

  // ------------------------------------------------------------- exclusive or

  /** The lowest `n` bits of a number, most significant first. */
  function LowBits(b: nat, n: nat): (f: seq<bool>)
    ensures |f| == n
  {
    if n == 0 then [] else LowBits(b / 2, n - 1) + [b % 2 == 1]
  }

  /** The number written by bits, most significant first. */
  function OfBits(f: seq<bool>): nat
  {
    if f == [] then 0 else 2 * OfBits(f[..|f| - 1]) + if f[|f| - 1] then 1 else 0
  }

  lemma {:induction false} OfLowBits(b: nat, n: nat)
    requires b < Pow(2, n)
    ensures OfBits(LowBits(b, n)) == b
  {
    if n > 0 {
      OfLowBits(b / 2, n - 1);
      assert LowBits(b, n)[..n - 1] == LowBits(b / 2, n - 1);
    }
  }

  lemma {:induction false} LowOfBits(f: seq<bool>)
    ensures LowBits(OfBits(f), |f|) == f && OfBits(f) < Pow(2, |f|)
  {
    if f != [] { LowOfBits(f[..|f| - 1]); }
  }

  function BitsOf(b: Byte): (f: seq<bool>)
    ensures |f| == 8
  {
    LowBits(b, 8)
  }

  function ByteOf(f: seq<bool>): Byte
    requires |f| == 8
  {
    LowOfBits(f);
    assert Pow(2, 8) == 256;
    OfBits(f)
  }

  lemma ByteOfBits(b: Byte)
    ensures ByteOf(BitsOf(b)) == b
  {
    assert Pow(2, 8) == 256;
    OfLowBits(b, 8);
  }

  lemma BitsOfByte(f: seq<bool>)
    requires |f| == 8
    ensures BitsOf(ByteOf(f)) == f
  {
    LowOfBits(f);
  }

  /** Bit by bit exclusive or, up to the end of the shorter operand. */
  function XorBools(a: seq<bool>, b: seq<bool>): (r: seq<bool>)
    ensures |r| == if |a| <= |b| then |a| else |b|
    ensures forall i :: 0 <= i < |r| ==> r[i] == (a[i] != b[i])
  {
    seq(if |a| <= |b| then |a| else |b|, i requires 0 <= i < |a| && i < |b| => a[i] != b[i])
  }

  /** `a ^ b` */
  function XorByte(a: Byte, b: Byte): Byte
  {
    ByteOf(XorBools(BitsOf(a), BitsOf(b)))
  }

  lemma XorByteTwice(a: Byte, b: Byte)
    ensures XorByte(XorByte(a, b), b) == a
  {
    hide ByteOf, BitsOf;
    var m := XorBools(BitsOf(a), BitsOf(b));
    BitsOfByte(m);
    assert XorBools(m, BitsOf(b)) == BitsOf(a);
    ByteOfBits(a);
  }

  lemma {:induction false} ZeroBits(n: nat)
    ensures forall i :: 0 <= i < n ==> !LowBits(0, n)[i]
  {
    if n > 0 { ZeroBits(n - 1); }
  }

  lemma XorByteZero(a: Byte)
    ensures XorByte(a, 0) == a
  {
    hide ByteOf;
    ZeroBits(8);
    assert XorBools(BitsOf(a), BitsOf(0)) == BitsOf(a);
    ByteOfBits(a);
  }

  /** `xor(s1, s2)`: like `zip`, it stops at the end of the shorter operand. */
  function Xor(a: seq<Byte>, b: seq<Byte>): (r: seq<Byte>)
    ensures |r| == if |a| <= |b| then |a| else |b|
    ensures forall i :: 0 <= i < |r| ==> r[i] == XorByte(a[i], b[i])
  {
    seq(if |a| <= |b| then |a| else |b|, i requires 0 <= i < |a| && i < |b| => XorByte(a[i], b[i]))
  }

  lemma XorTwice(a: seq<Byte>, b: seq<Byte>)
    requires |a| <= |b|
    ensures Xor(Xor(a, b), b) == a
  {
    hide XorByte;
    var r := Xor(Xor(a, b), b);
    forall i | 0 <= i < |a| ensures r[i] == a[i] { XorByteTwice(a[i], b[i]); }
  }

  function Rotate(s: seq<Byte>, n: nat): (r: seq<Byte>)
    ensures |r| == |s|
    ensures forall i :: 0 <= i < |s| ==> r[i] == s[(i + n) % |s|]
  {
    seq(|s|, i requires 0 <= i < |s| => s[(i + n) % |s|])
  }

  // ---------------------------------------------------------------- f1 to f5*

  type Cipher = (seq<Byte>, seq<Byte>) -> seq<Byte>

  /** A cipher on 16-byte blocks: for each key, blocks go to blocks. */
  ghost predicate IsBlockCipher(e: Cipher)
  {
    forall k, b :: |b| == 16 ==> |e(k, b)| == 16
  }

  const BLOCK: nat := 16

  /** The 16-byte constant whose last byte is `last`. */
  function Constant(last: Byte): (c: seq<Byte>)
    ensures |c| == BLOCK && c[15] == last && forall i :: 0 <= i < 15 ==> c[i] == 0
  {
    seq(15, _ => 0) + [last]
  }

  /** One block in CBC mode: the initialisation vector is added before the cipher.  Of no
      bytes the library makes no bytes. */
  function Encrypt(e: Cipher, key: seq<Byte>, block: seq<Byte>, iv: seq<Byte>): seq<Byte>
  {
    if block == [] then [] else e(key, Xor(block, iv))
  }

  /** The buffers that the library enciphers without raising. */
  predicate Whole(buf: seq<Byte>)
  {
    |buf| % BLOCK == 0
  }

  /** A subscription: cipher, key, OPc and AMF, of the sizes the algorithm asks for. */
  datatype Subscription = Subscription(e: Cipher, key: seq<Byte>, opc: seq<Byte>, amf: seq<Byte>)
  {
    ghost predicate Valid()
    {
      IsBlockCipher(e) && |opc| == BLOCK && |amf| == 2
    }
  }

  function Temp(s: Subscription, rand: seq<Byte>): seq<Byte>
  {
    Encrypt(s.e, s.key, Xor(rand, s.opc), Constant(0))
  }

  function In1(sqn: seq<Byte>, amf: seq<Byte>): seq<Byte>
  {
    Slice(sqn, 0, 6) + Slice(amf, 0, 2) + (Slice(sqn, 0, 6) + Slice(amf, 0, 2))
  }

  /** What f1 enciphers last. */
  function In1Masked(s: Subscription, sqn: seq<Byte>, rand: seq<Byte>): seq<Byte>
  {
    Xor(Temp(s, rand), Rotate(Xor(In1(sqn, s.amf), s.opc), 8))
  }

  /** f1 and f1*: (MAC-A, MAC-S). */
  function F1(s: Subscription, sqn: seq<Byte>, rand: seq<Byte>): (seq<Byte>, seq<Byte>)
  {
    var c1 := Constant(0);
    var out1' := Encrypt(s.e, s.key, In1Masked(s, sqn, rand), c1);
    var out1 := Xor(s.opc, out1');
    (Slice(out1, 0, 8), Drop(out1, 8))
  }

  /** The common shape of OUT2 to OUT5: rotate by `r` bytes, add a constant, encipher. */
  function Out(s: Subscription, rand: seq<Byte>, r: nat, c: Byte): seq<Byte>
  {
    var tempXorOpc := Xor(Temp(s, rand), s.opc);
    Xor(Encrypt(s.e, s.key, Xor(Rotate(tempXorOpc, r), Constant(c)), Constant(0)), s.opc)
  }

  /** (RES, AK) */
  function F2F5(s: Subscription, rand: seq<Byte>): (seq<Byte>, seq<Byte>)
  {
    var out2 := Out(s, rand, 0, 1);
    (Slice(out2, 8, 16), Slice(out2, 0, 6))
  }

  function F3(s: Subscription, rand: seq<Byte>): seq<Byte>
  {
    Out(s, rand, 4, 2)
  }

  function F4(s: Subscription, rand: seq<Byte>): seq<Byte>
  {
    Out(s, rand, 8, 4)
  }

  function F5Star(s: Subscription, rand: seq<Byte>): seq<Byte>
  {
    Slice(Out(s, rand, 12, 8), 0, 6)
  }

  // ------------------------------------------- section 4.1 of TS 35.206, in bits

  function Bits(b: seq<Byte>): (r: seq<bool>)
    ensures |r| == 8 * |b| && forall i :: 0 <= i < |r| ==> r[i] == BitsOf(b[i / 8])[i % 8]
  {
    seq(8 * |b|, i requires 0 <= i < 8 * |b| => BitsOf(b[i / 8])[i % 8])
  }

  /** The bytes written by a bit string. */
  function Bytes(f: seq<bool>): (r: seq<Byte>)
    ensures |r| == |f| / 8
  {
    seq(|f| / 8, i requires 0 <= i < |f| / 8 => ByteOf(f[8 * i..8 * i + 8]))
  }

  /** Cyclic rotation of a bit string by `r` positions towards the most significant bit. */
  function RotateBits(x: seq<bool>, r: nat): (y: seq<bool>)
    ensures |y| == |x| && forall i :: 0 <= i < |x| ==> y[i] == x[(i + r) % |x|]
  {
    seq(|x|, i requires 0 <= i < |x| => x[(i + r) % |x|])
  }

  /** A 128-bit constant with at most one bit set, counted from the least significant. */
  function BitConstant(bit: nat): (c: seq<bool>)
    ensures |c| == 128 && forall i :: 0 <= i < 128 ==> c[i] == (i + bit == 127)
  {
    seq(128, i => i + bit == 127)
  }

  /** E[x]_K on bit strings. */
  function CipherBits(s: Subscription, x: seq<bool>): seq<bool>
  {
    Bits(s.e(s.key, Bytes(x)))
  }

  lemma BytesOfBits(b: seq<Byte>)
    ensures Bytes(Bits(b)) == b
  {
    hide ByteOf, BitsOf;
    forall i | 0 <= i < |b| ensures Bytes(Bits(b))[i] == b[i] {
      var window := Bits(b)[8 * i..8 * i + 8];
      forall k | 0 <= k < 8 ensures window[k] == BitsOf(b[i])[k] {
        assert window[k] == Bits(b)[8 * i + k];
        assert (8 * i + k) / 8 == i && (8 * i + k) % 8 == k;
      }
      assert window == BitsOf(b[i]);
      ByteOfBits(b[i]);
    }
  }

  lemma XorInBits(a: seq<Byte>, b: seq<Byte>)
    requires |a| == |b|
    ensures Bits(Xor(a, b)) == XorBools(Bits(a), Bits(b))
  {
    hide ByteOf, BitsOf;
    forall i | 0 <= i < 8 * |a| ensures Bits(Xor(a, b))[i] == (Bits(a)[i] != Bits(b)[i]) {
      BitsOfByte(XorBools(BitsOf(a[i / 8]), BitsOf(b[i / 8])));
    }
  }

  /** Rotating by bytes is rotating by eight times as many bits. */
  lemma RotateInBits(b: seq<Byte>, n: nat)
    requires |b| == BLOCK && n <= BLOCK
    ensures Bits(Rotate(b, n)) == RotateBits(Bits(b), 8 * n)
  {
    hide BitsOf;
    var l, r := Bits(Rotate(b, n)), RotateBits(Bits(b), 8 * n);
    forall i | 0 <= i < 128 ensures l[i] == r[i] {
      RotatedIndex(i, n);
    }
  }

  lemma RotatedIndex(i: nat, n: nat)
    requires i < 128 && n <= BLOCK
    ensures var j := (i + 8 * n) % 128; j / 8 == (i / 8 + n) % 16 && j % 8 == i % 8
  {
    var q, k := i / 8, i % 8;
    if q + n >= 16 {
      assert (i + 8 * n) % 128 == i + 8 * n - 128;
    }
  }

  lemma ConstantInBits(last: Byte, bit: nat)
    requires (last, bit) == (0, 128) || (last, bit) == (1, 0) || (last, bit) == (2, 1)
          || (last, bit) == (4, 2) || (last, bit) == (8, 3)
    ensures Bits(Constant(last)) == BitConstant(bit)
  {
    hide BitsOf;
    var l, r := Bits(Constant(last)), BitConstant(bit);
    LastByteBits(last, bit);
    ZeroByteBits();
    forall i | 0 <= i < 128 ensures l[i] == r[i] {
      assert Constant(last)[i / 8] == if i < 120 then 0 else last;
      assert i >= 120 ==> i % 8 == i - 120;
    }
  }

  lemma ZeroByteBits()
    ensures forall k :: 0 <= k < 8 ==> !BitsOf(0)[k]
  {
    ZeroBits(8);
  }

  lemma LastByteBits(last: Byte, bit: nat)
    requires (last, bit) == (0, 128) || (last, bit) == (1, 0) || (last, bit) == (2, 1)
          || (last, bit) == (4, 2) || (last, bit) == (8, 3)
    ensures forall k :: 0 <= k < 8 ==> (BitsOf(last)[k] <==> k + bit == 7)
  {
    if last == 0 {
      ZeroBits(8);
    } else {
      assert last == Pow(2, bit);
      PowerBits(bit, 8);
    }
  }

  /** A power of two has a single bit set. */
  lemma {:induction false} PowerBits(e: nat, n: nat)
    requires e < n
    ensures forall k :: 0 <= k < n ==> (LowBits(Pow(2, e), n)[k] <==> k + e + 1 == n)
  {
    if e == 0 {
      assert Pow(2, 0) / 2 == 0;
      ZeroBits(n - 1);
    } else {
      assert Pow(2, e) / 2 == Pow(2, e - 1) && Pow(2, e) % 2 == 0;
      PowerBits(e - 1, n - 1);
    }
  }

  lemma XorNothing(b: seq<Byte>)
    requires |b| == BLOCK
    ensures Xor(b, Constant(0)) == b
  {
    hide XorByte;
    forall i | 0 <= i < BLOCK ensures Xor(b, Constant(0))[i] == b[i] {
      XorByteZero(b[i]);
    }
  }

  /** TEMP = E[RAND ^ OPc]_K */
  function SpecTemp(s: Subscription, rand: seq<Byte>): seq<bool>
  {
    CipherBits(s, XorBools(Bits(rand), Bits(s.opc)))
  }

  /** OUTi = E[rot(TEMP ^ OPc, ri) ^ ci]_K ^ OPc, for i from 2 to 5. */
  function SpecOut(s: Subscription, rand: seq<Byte>, r: nat, c: seq<bool>): seq<bool>
  {
    XorBools(CipherBits(s, XorBools(RotateBits(XorBools(SpecTemp(s, rand), Bits(s.opc)), r), c)), Bits(s.opc))
  }

  /** OUT1 = E[TEMP ^ rot(IN1 ^ OPc, r1) ^ c1]_K ^ OPc, where IN1 is SQN and AMF twice. */
  function SpecOut1(s: Subscription, sqn: seq<Byte>, rand: seq<Byte>, r: nat, c: seq<bool>): seq<bool>
  {
    var in1 := Bits(sqn + s.amf + (sqn + s.amf));
    XorBools(CipherBits(s, XorBools(XorBools(SpecTemp(s, rand), RotateBits(XorBools(in1, Bits(s.opc)), r)), c)), Bits(s.opc))
  }

  lemma TempRefines(s: Subscription, rand: seq<Byte>)
    requires s.Valid() && |rand| == BLOCK
    ensures |Temp(s, rand)| == BLOCK && Bits(Temp(s, rand)) == SpecTemp(s, rand)
  {
    hide XorByte, BitsOf, ByteOf, Bits, XorBools;
    XorNothing(Xor(rand, s.opc));
    XorInBits(rand, s.opc);
    BytesOfBits(Xor(rand, s.opc));
  }

  /** Bytes rotated by `r` are bits rotated by `8 r`. */
  lemma OutRefines(s: Subscription, rand: seq<Byte>, r: nat, c: Byte, bit: nat)
    requires s.Valid() && |rand| == BLOCK && r <= BLOCK
    requires (c, bit) == (1, 0) || (c, bit) == (2, 1) || (c, bit) == (4, 2) || (c, bit) == (8, 3)
    ensures |Out(s, rand, r, c)| == BLOCK
    ensures Bits(Out(s, rand, r, c)) == SpecOut(s, rand, 8 * r, BitConstant(bit))
  {
    hide XorByte, BitsOf, ByteOf, Bits, XorBools, RotateBits, Temp, SpecTemp, Rotate, Constant, BitConstant, Bytes;
    TempRefines(s, rand);
    var x := Xor(Temp(s, rand), s.opc);
    XorInBits(Temp(s, rand), s.opc);
    RotateInBits(x, r);
    ConstantInBits(c, bit);
    var y := Xor(Rotate(x, r), Constant(c));
    XorInBits(Rotate(x, r), Constant(c));
    BytesOfBits(y);
    XorNothing(y);
    XorInBits(s.e(s.key, y), s.opc);
  }

  lemma BitsSlice(b: seq<Byte>, i: nat, j: nat)
    requires i <= j <= |b|
    ensures Bits(b[i..j]) == Bits(b)[8 * i..8 * j]
  {
    hide BitsOf;
    var l, r := Bits(b[i..j]), Bits(b)[8 * i..8 * j];
    forall k | 0 <= k < 8 * (j - i) ensures l[k] == r[k] {
      assert (8 * i + k) / 8 == i + k / 8 && (8 * i + k) % 8 == k % 8;
      assert r[k] == Bits(b)[8 * i + k];
    }
  }

  lemma BitsConcat(a: seq<Byte>, b: seq<Byte>)
    ensures Bits(a + b) == Bits(a) + Bits(b)
  {
    hide Bits;
    BitsSlice(a + b, 0, |a|);
    BitsSlice(a + b, |a|, |a| + |b|);
    assert (a + b)[0..|a|] == a && (a + b)[|a|..|a| + |b|] == b;
    var all := Bits(a + b);
    assert all == all[0..8 * |a|] + all[8 * |a|..8 * (|a| + |b|)];
  }

  /** f2 to f5* are the parts of OUT2 to OUT5 that section 4.1 of TS 35.206 names, with its
      rotations and constants: RES is the second half and AK the first 48 bits of OUT2, CK is
      OUT3, IK is OUT4, and the AK of re-synchronisation the first 48 bits of OUT5. */
  lemma FunctionsRefine(s: Subscription, rand: seq<Byte>)
    requires s.Valid() && |rand| == BLOCK
    ensures var out2 := SpecOut(s, rand, 0, BitConstant(0));
      |out2| == 128 && Bits(F2F5(s, rand).0) == out2[64..128] && Bits(F2F5(s, rand).1) == out2[0..48]
    ensures Bits(F3(s, rand)) == SpecOut(s, rand, 32, BitConstant(1))
    ensures Bits(F4(s, rand)) == SpecOut(s, rand, 64, BitConstant(2))
    ensures var out5 := SpecOut(s, rand, 96, BitConstant(3));
      |out5| == 128 && Bits(F5Star(s, rand)) == out5[0..48]
  {
    hide Out, Bits, SpecOut, BitConstant;
    OutRefines(s, rand, 0, 1, 0);
    OutRefines(s, rand, 4, 2, 1);
    OutRefines(s, rand, 8, 4, 2);
    OutRefines(s, rand, 12, 8, 3);
    BitsSlice(Out(s, rand, 0, 1), 8, 16);
    BitsSlice(Out(s, rand, 0, 1), 0, 6);
    BitsSlice(Out(s, rand, 12, 8), 0, 6);
  }

  /** f1 and f1* refine the bit-level formula; the code passes c1 as the initialisation vector. */
  lemma F1Refines(s: Subscription, sqn: seq<Byte>, rand: seq<Byte>)
    requires s.Valid() && |rand| == BLOCK && |sqn| == 6
    ensures |F1(s, sqn, rand).0| == 8 && |F1(s, sqn, rand).1| == 8
    ensures Bits(F1(s, sqn, rand).0 + F1(s, sqn, rand).1) == SpecOut1(s, sqn, rand, 64, BitConstant(128))
  {
    hide XorByte, BitsOf, ByteOf, Bits, XorBools, RotateBits, Temp, SpecTemp, Rotate, Constant, BitConstant, Bytes, In1;
    TempRefines(s, rand);
    In1Shape(s, sqn);
    var in1 := In1(sqn, s.amf);
    XorInBits(in1, s.opc);
    var z := Rotate(Xor(in1, s.opc), 8);
    RotateInBits(Xor(in1, s.opc), 8);
    var y := Xor(Temp(s, rand), z);
    XorInBits(Temp(s, rand), z);
    ConstantInBits(0, 128);
    XorInBits(y, Constant(0));
    BytesOfBits(Xor(y, Constant(0)));
    var out1' := s.e(s.key, Xor(y, Constant(0)));
    XorInBits(s.opc, out1');
    var out1 := Xor(s.opc, out1');
    assert F1(s, sqn, rand).0 + F1(s, sqn, rand).1 == out1;
    XorCommutes(Bits(s.opc), Bits(out1'));
  }

  lemma In1Shape(s: Subscription, sqn: seq<Byte>)
    requires s.Valid() && |sqn| == 6
    ensures In1(sqn, s.amf) == sqn + s.amf + (sqn + s.amf)
  {
    assert sqn[0..6] == sqn && s.amf[0..2] == s.amf;
  }

  lemma XorCommutes(a: seq<bool>, b: seq<bool>)
    ensures XorBools(a, b) == XorBools(b, a)
  {
  }

  lemma FunctionSizes(s: Subscription, sqn: seq<Byte>, rand: seq<Byte>)
    requires s.Valid() && |rand| == BLOCK && |sqn| == 6
    ensures |F1(s, sqn, rand).0| == 8 && |F1(s, sqn, rand).1| == 8
    ensures |F2F5(s, rand).0| == 8 && |F2F5(s, rand).1| == 6
    ensures |F3(s, rand)| == BLOCK && |F4(s, rand)| == BLOCK && |F5Star(s, rand)| == 6
  {
    hide F1, Out, Bits, SpecOut, SpecOut1, BitConstant;
    F1Refines(s, sqn, rand);
    OutRefines(s, rand, 0, 1, 0);
    OutRefines(s, rand, 4, 2, 1);
    OutRefines(s, rand, 8, 4, 2);
    OutRefines(s, rand, 12, 8, 3);
  }
}
