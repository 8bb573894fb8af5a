/** Authentication vectors and re-synchronisation tokens built from the Milenage functions. */
module AuthVectors {
  import opened PyText
  import opened Octets
  import opened Milenage

  /** The bound of a 48-bit sequence number. */
  const SQN_LIMIT: nat := 0x1_0000_0000_0000

  /** `bytearray.fromhex('{:012x}'.format(sqn))`; `None` for an odd number of digits. */
  function SqnBytes(sqn: nat): Option<seq<Byte>>
  {
    Unhexlify(HexField(sqn, 12))
  }

  lemma SqnWidth()
    ensures Pow(16, 12) == SQN_LIMIT
  {
    assert Pow(16, 4) == 0x1_0000;
    assert Pow(16, 8) == 0x1_0000_0000;
  }

  lemma SqnBytesRead(sqn: nat)
    requires sqn < SQN_LIMIT
    ensures SqnBytes(sqn).Some? && |SqnBytes(sqn).value| == 6 && BigEndian(SqnBytes(sqn).value) == sqn
  {
    hide HexField, ParseInt, Value, Unhexlify, BigEndian, Pow;
    var h := HexField(sqn, 12);
    SqnWidth();
    HexFieldReads(sqn, 12);
    ParseDigits(h, 16);
    UnhexValue(h);
  }

  /** The first sequence numbers past 48 bits have 13 digits, which Python refuses. */
  lemma SqnBytesOverflow(sqn: nat)
    requires SQN_LIMIT <= sqn < 16 * SQN_LIMIT
    ensures SqnBytes(sqn).None?
  {
    hide Unhexlify, Pow;
    SqnWidth();
    assert Pow(16, 13) == 16 * SQN_LIMIT by { PowStep(12); }
    DigitsWidth(sqn, 16, 13);
    if |Digits(sqn, 16)| <= 12 {
      DigitsBelow(sqn, 12);
      assert false;
    }
  }

  lemma PowStep(e: nat)
    ensures Pow(16, e + 1) == 16 * Pow(16, e)
  {
  }

  /** Up to where sequence numbers go on being printed: the first value with one digit more
      than `sqn` is printed with, or zero where `sqn` itself is refused. */
  function Ceiling(sqn: nat): nat
  {
    if SqnBytes(sqn).None? then 0 else Pow(16, |HexField(sqn, 12)|)
  }

  lemma CeilingOf48Bits(sqn: nat)
    ensures sqn < SQN_LIMIT ==> Ceiling(sqn) == SQN_LIMIT
    ensures SQN_LIMIT <= sqn < 16 * SQN_LIMIT ==> Ceiling(sqn) == 0
  {
    hide Unhexlify, Pow, SqnBytes;
    SqnWidth();
    if sqn < SQN_LIMIT {
      SqnBytesRead(sqn);
      HexFieldReads(sqn, 12);
    } else if sqn < 16 * SQN_LIMIT {
      SqnBytesOverflow(sqn);
    }
  }

  /** One digit more is an odd number of digits. */
  lemma CeilingStep(sqn: nat, next: nat)
    requires SqnBytes(sqn).Some? && sqn <= next <= sqn + 100
    ensures sqn < Ceiling(sqn)
    ensures Ceiling(next) == if next < Ceiling(sqn) then Ceiling(sqn) else 0
  {
    hide Digits, Pow, Unhexlify;
    var w := |HexField(sqn, 12)|;
    DigitsBelow(sqn, w);
    assert Pow(16, 12) == SQN_LIMIT by { SqnWidth(); }
    PowMonotone(16, 12, w);
    PowStep(w);
    DigitsWidth(next, 16, w + 1);
    if next < Pow(16, w) {
      DigitsWidth(next, 16, w);
      if w > 12 {
        if |Digits(next, 16)| < w { Shorter(sqn, next, w); }
      }
    } else if |Digits(next, 16)| <= w {
      DigitsBelow(next, w);
    }
  }

  lemma Shorter(sqn: nat, next: nat, w: nat)
    requires sqn <= next && |Digits(next, 16)| < w && w >= 2
    ensures |Digits(sqn, 16)| < w
  {
    hide Digits, Pow;
    DigitsBelow(next, w - 1);
    DigitsWidth(sqn, 16, w - 1);
  }

  // ------------------------------------------------------------ network tokens

  /** AUTN = SQN ^ AK || AMF || MAC-A */
  function GenerateAutn(s: Subscription, sqn: seq<Byte>, rand: seq<Byte>): seq<Byte>
  {
    Xor(sqn, F2F5(s, rand).1) + s.amf + F1(s, sqn, rand).0
  }

  /** AUTS = SQN_MS ^ AK || MAC-S */
  function GenerateAuts(s: Subscription, rand: seq<Byte>, sqn: nat): Option<seq<Byte>>
  {
    var b := SqnBytes(sqn);
    if b.None? then None else Some(Xor(b.value, F5Star(s, rand)) + F1(s, b.value, rand).1)
  }

  /** (SQN_MS, MAC-S) from AUTS; `None` where a broken block makes the cipher raise. */
  function GenerateResync(s: Subscription, auts: seq<Byte>, rand: seq<Byte>): Option<(nat, seq<Byte>)>
  {
    var sqn := Xor(Slice(auts, 0, 6), F5Star(s, rand));
    if !Whole(Xor(rand, s.opc)) || !Whole(In1Masked(s, sqn, rand)) then None
    else Some((BigEndian(sqn), F1(s, sqn, rand).1))
  }

  lemma TempSize(s: Subscription, rand: seq<Byte>)
    requires s.Valid() && (|rand| == BLOCK || rand == [])
    ensures |Temp(s, rand)| == |rand|
  {
    hide Xor;
  }

  lemma MaskedSize(s: Subscription, sqn: seq<Byte>, rand: seq<Byte>)
    requires s.Valid() && (|rand| == BLOCK || rand == []) && |sqn| <= 6
    ensures |In1Masked(s, sqn, rand)| == if rand == [] then 0 else 4 + 2 * |sqn|
  {
    hide Xor, Rotate, Temp;
    TempSize(s, rand);
  }

  lemma StarSize(s: Subscription, rand: seq<Byte>)
    requires s.Valid() && (|rand| == BLOCK || rand == [])
    ensures |F5Star(s, rand)| == if rand == [] then 0 else 6
  {
    hide Xor, Temp;
    TempSize(s, rand);
  }

  /** A token can be read exactly if it is whole, or if RAND is missing altogether: then every
      intermediate block is empty and the sequence number read is zero. */
  lemma ResyncReads(s: Subscription, auts: seq<Byte>, rand: seq<Byte>)
    requires s.Valid() && |rand| <= BLOCK
    ensures GenerateResync(s, auts, rand).Some? <==> rand == [] || (|rand| == BLOCK && |auts| >= 6)
    ensures rand == [] ==> GenerateResync(s, auts, rand) == Some((0, []))
  {
    hide F5Star, In1Masked, Slice;
    if |rand| == BLOCK || rand == [] {
      StarSize(s, rand);
      var sqn := Xor(Slice(auts, 0, 6), F5Star(s, rand));
      FrontSize(auts);
      MaskedSize(s, sqn, rand);
      if rand == [] { assert In1Masked(s, sqn, rand) == [] && sqn == []; }
    } else {
      assert |Xor(rand, s.opc)| == |rand|;
    }
  }

  lemma FrontSize(auts: seq<Byte>)
    ensures |Slice(auts, 0, 6)| == if |auts| < 6 then |auts| else 6
  {
  }

  /** Re-synchronisation recovers the sequence number of the card and its MAC-S. */
  lemma ResyncInvertsAuts(s: Subscription, rand: seq<Byte>, sqn: nat)
    requires s.Valid() && |rand| == BLOCK && sqn < SQN_LIMIT
    ensures var auts := GenerateAuts(s, rand, sqn);
      && auts.Some? && |auts.value| == 14
      && GenerateResync(s, auts.value, rand) == Some((sqn, auts.value[6..]))
  {
    hide F1, F5Star, SqnBytes, BigEndian, Xor;
    SqnBytesRead(sqn);
    var b := SqnBytes(sqn).value;
    FunctionSizes(s, b, rand);
    XorTwice(b, F5Star(s, rand));
    var auts := GenerateAuts(s, rand, sqn).value;
    assert Slice(auts, 0, 6) == Xor(b, F5Star(s, rand));
  }

  /** Re-Synchronization-Info (section 7.3.15 of TS 29.272): RAND and AUTS in one hex text,
      split as the AIR handler splits it. */
  function ResyncInfo(rand: seq<Byte>, auts: seq<Byte>): string
  {
    Hexlify(rand + auts)
  }

  lemma ResyncInfoSplits(rand: seq<Byte>, auts: seq<Byte>)
    requires |rand| == BLOCK
    ensures Unhexlify(Slice(ResyncInfo(rand, auts), 0, 32)) == Some(rand)
    ensures Unhexlify(Drop(ResyncInfo(rand, auts), 32)) == Some(auts)
  {
    hide Unhexlify, Hexlify;
    var both := rand + auts;
    HexlifySlice(both, 0, 16);
    HexlifySlice(both, 16, |both|);
    assert both[0..16] == rand && both[16..|both|] == auts;
    assert Drop(Hexlify(both), 32) == Hexlify(both)[2 * 16..2 * |both|];
    HexRoundTrip(rand);
    HexRoundTrip(auts);
  }

  // -------------------------------------------------------------- the vectors

  type Kdf = (seq<Byte>, seq<Byte>) -> seq<Byte>

  /** KASME: the derivation keyed by CK || IK over PLMN and SQN ^ AK. */
  function Kasme(kdf: Kdf, s: Subscription, plmn: seq<Byte>, sqn: seq<Byte>, rand: seq<Byte>): seq<Byte>
  {
    kdf(F3(s, rand) + F4(s, rand), [0x10] + plmn + [0, 3] + Xor(sqn, F2F5(s, rand).1) + [0, 6])
  }

  datatype EutranVector = EutranVector(rand: seq<Byte>, xres: seq<Byte>, autn: seq<Byte>, kasme: seq<Byte>)

  /** The vector of the S6a (and, without KASME, of the Cx and SWx) interfaces. */
  datatype AkaVector = AkaVector(rand: seq<Byte>, xres: seq<Byte>, autn: seq<Byte>, ck: seq<Byte>, ik: seq<Byte>)

  function GenerateEutranVector(kdf: Kdf, s: Subscription, sqn: nat, rand: seq<Byte>, plmn: seq<Byte>): Option<EutranVector>
  {
    var b := SqnBytes(sqn);
    if b.None? then None
    else Some(EutranVector(rand, F2F5(s, rand).0, GenerateAutn(s, b.value, rand), Kasme(kdf, s, plmn, b.value, rand)))
  }

  function GenerateAkaVector(s: Subscription, sqn: nat, rand: seq<Byte>): Option<AkaVector>
  {
    var b := SqnBytes(sqn);
    if b.None? then None
    else Some(AkaVector(rand, F2F5(s, rand).0, GenerateAutn(s, b.value, rand), F3(s, rand), F4(s, rand)))
  }

  lemma MacBits(s: Subscription, sqn: seq<Byte>, rand: seq<Byte>)
    requires s.Valid() && |rand| == BLOCK && |sqn| == 6
    ensures var out1 := SpecOut1(s, sqn, rand, 64, BitConstant(128));
      |out1| == 128 && Bits(F1(s, sqn, rand).0) == out1[0..64] && Bits(F1(s, sqn, rand).1) == out1[64..128]
  {
    hide F1, Bits, SpecOut1, BitConstant;
    F1Refines(s, sqn, rand);
    var a, b := F1(s, sqn, rand).0, F1(s, sqn, rand).1;
    BitsConcat(a, b);
    assert (Bits(a) + Bits(b))[0..64] == Bits(a) && (Bits(a) + Bits(b))[64..128] == Bits(b);
  }

  /** AUTN in bits: SQN ^ AK, AMF, MAC-A (section 6.3.2 of TS 33.102). */
  lemma AutnFormula(s: Subscription, sqn: seq<Byte>, rand: seq<Byte>)
    requires s.Valid() && |rand| == BLOCK && |sqn| == 6
    ensures var out1, out2 := SpecOut1(s, sqn, rand, 64, BitConstant(128)), SpecOut(s, rand, 0, BitConstant(0));
      && |out1| == 128 && |out2| == 128
      && Bits(GenerateAutn(s, sqn, rand)) == XorBools(Bits(sqn), out2[0..48]) + Bits(s.amf) + out1[0..64]
  {
    hide F1, F2F5, Bits, SpecOut1, SpecOut, BitConstant, Xor, XorBools;
    FunctionSizes(s, sqn, rand);
    FunctionsRefine(s, rand);
    MacBits(s, sqn, rand);
    var front := Xor(sqn, F2F5(s, rand).1);
    BitsConcat(front + s.amf, F1(s, sqn, rand).0);
    BitsConcat(front, s.amf);
    XorInBits(sqn, F2F5(s, rand).1);
  }

  /** AUTS in bits: SQN ^ AK*, MAC-S (section 6.3.3 of TS 33.102). */
  lemma AutsFormula(s: Subscription, rand: seq<Byte>, sqn: nat, b: seq<Byte>)
    requires s.Valid() && |rand| == BLOCK && sqn < SQN_LIMIT && SqnBytes(sqn) == Some(b)
    ensures var out1, out5 := SpecOut1(s, b, rand, 64, BitConstant(128)), SpecOut(s, rand, 96, BitConstant(3));
      && |b| == 6 && |out1| == 128 && |out5| == 128
      && GenerateAuts(s, rand, sqn).Some?
      && Bits(GenerateAuts(s, rand, sqn).value) == XorBools(Bits(b), out5[0..48]) + out1[64..128]
  {
    hide F1, F5Star, Bits, SpecOut1, SpecOut, BitConstant, Xor, XorBools, SqnBytes;
    SqnBytesRead(sqn);
    FunctionSizes(s, b, rand);
    FunctionsRefine(s, rand);
    MacBits(s, b, rand);
    BitsConcat(Xor(b, F5Star(s, rand)), F1(s, b, rand).1);
    XorInBits(b, F5Star(s, rand));
  }

  /** What a vector holds, by the bit-level formulas: RES from OUT2, CK is OUT3, IK is OUT4, and
      KASME is derived from CK and IK in that order. */
  lemma VectorFormula(kdf: Kdf, s: Subscription, sqn: nat, b: seq<Byte>, rand: seq<Byte>, plmn: seq<Byte>)
    requires s.Valid() && |rand| == BLOCK && sqn < SQN_LIMIT && SqnBytes(sqn) == Some(b)
    ensures var aka, eutran := GenerateAkaVector(s, sqn, rand), GenerateEutranVector(kdf, s, sqn, rand, plmn);
      && aka.Some? && eutran.Some? && aka.value.rand == eutran.value.rand == rand
      && aka.value.xres == eutran.value.xres && aka.value.autn == eutran.value.autn == GenerateAutn(s, b, rand)
      && |SpecOut(s, rand, 0, BitConstant(0))| == 128
      && Bits(aka.value.xres) == SpecOut(s, rand, 0, BitConstant(0))[64..128]
      && Bits(aka.value.ck) == SpecOut(s, rand, 32, BitConstant(1))
      && Bits(aka.value.ik) == SpecOut(s, rand, 64, BitConstant(2))
      && |aka.value.autn| == 16
      && eutran.value.kasme == kdf(aka.value.ck + aka.value.ik, [0x10] + plmn + [0, 3] + aka.value.autn[..6] + [0, 6])
  {
    hide F1, F2F5, F3, F4, Bits, SpecOut, BitConstant, Xor, SqnBytes;
    SqnBytesRead(sqn);
    FunctionSizes(s, b, rand);
    FunctionsRefine(s, rand);
    var autn := GenerateAutn(s, b, rand);
    assert autn[..6] == Xor(b, F2F5(s, rand).1);
  }

  // ------------------------------------------------------------------ the card

  datatype CardReply =
    | Accepted(sqn: nat, res: seq<Byte>)
    | SyncFailure(auts: seq<Byte>)
    | MacFailure

  /** What a card with the same subscription does with (RAND, AUTN): it checks MAC-A and
      accepts exactly the sequence numbers above its own (section 6.3.3 of TS 33.102). */
  function CardAnswer(s: Subscription, own: nat, rand: seq<Byte>, autn: seq<Byte>): CardReply
  {
    var sqn := Xor(Slice(autn, 0, 6), F2F5(s, rand).1);
    if Slice(autn, 8, 16) != F1(s, sqn, rand).0 then MacFailure
    else if BigEndian(sqn) > own then Accepted(BigEndian(sqn), F2F5(s, rand).0)
    else
      var auts := GenerateAuts(s, rand, own);
      if auts.None? then MacFailure else SyncFailure(auts.value)
  }

  /** The card recovers the sequence number that the network put in AUTN. */
  lemma CardReadsAutn(s: Subscription, sqn: nat, b: seq<Byte>, own: nat, rand: seq<Byte>)
    requires s.Valid() && |rand| == BLOCK && sqn < SQN_LIMIT && own < SQN_LIMIT && SqnBytes(sqn) == Some(b)
    ensures var reply := CardAnswer(s, own, rand, GenerateAutn(s, b, rand));
      if sqn > own then reply == Accepted(sqn, F2F5(s, rand).0)
      else reply.SyncFailure? && GenerateAuts(s, rand, own) == Some(reply.auts)
  {
    hide F1, F2F5, SqnBytes, BigEndian, Xor, GenerateAuts;
    SqnBytesRead(sqn);
    FunctionSizes(s, b, rand);
    XorTwice(b, F2F5(s, rand).1);
    var autn := GenerateAutn(s, b, rand);
    assert Slice(autn, 0, 6) == Xor(b, F2F5(s, rand).1);
    assert Slice(autn, 8, 16) == F1(s, b, rand).0;
    ResyncInvertsAuts(s, rand, own);
  }

  /** KASME as a card derives it from a challenge (annex A.2 of TS 33.401): SQN ^ AK is the
      front of AUTN. */
  function CardKasme(kdf: Kdf, s: Subscription, plmn: seq<Byte>, rand: seq<Byte>, autn: seq<Byte>): seq<Byte>
  {
    kdf(F3(s, rand) + F4(s, rand), [0x10] + plmn + [0, 3] + Slice(autn, 0, 6) + [0, 6])
  }

  /** Both ends agree: a card that accepts a vector answers with the expected response and
      derives the same KASME, for the same sequence number. */
  lemma BothEndsAgree(kdf: Kdf, s: Subscription, sqn: nat, own: nat, rand: seq<Byte>, plmn: seq<Byte>)
    requires s.Valid() && |rand| == BLOCK && own < sqn < SQN_LIMIT
    ensures var v := GenerateEutranVector(kdf, s, sqn, rand, plmn);
      && v.Some? && v.value.rand == rand
      && |v.value.autn| == 16 && Slice(v.value.autn, 6, 8) == s.amf
      && CardAnswer(s, own, rand, v.value.autn) == Accepted(sqn, v.value.xres)
      && CardKasme(kdf, s, plmn, rand, v.value.autn) == v.value.kasme
  {
    hide F1, F2F5, F3, F4, SqnBytes, CardAnswer, Xor;
    SqnBytesRead(sqn);
    var b := SqnBytes(sqn).value;
    FunctionSizes(s, b, rand);
    CardReadsAutn(s, sqn, b, own, rand);
    var autn := GenerateAutn(s, b, rand);
    assert Slice(autn, 0, 6) == Xor(b, F2F5(s, rand).1);
    assert Slice(autn, 6, 8) == s.amf;
  }
}
