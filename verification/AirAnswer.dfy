/** The Authentication-Information answer around the vectors, and what the peer reads out of it. */
module AirAnswer {
  import opened PyText
  import opened Octets
  import opened AvpCodec
  import opened AvpForest
  import opened AvpQuery
  import opened AvpText
  import opened Milenage
  import opened AuthVectors
  import opened AuthCentre

  // ------------------------------------------------------ the answer as trees

  function Plain(code: nat, payload: string): Avp
  {
    Leaf(code, "40", None, payload)
  }

  function InfoTree(items: seq<AirItem>): Avp
  {
    Group(1413, "c0", Some(VENDOR_3GPP), VectorTrees(items))
  }

  /** Vendor-Specific-Application-Id of S6a, which the code writes as one literal. */
  function ApplicationTree(): Avp
  {
    Group(260, "40", None, [Plain(266, "000028af")] + [Plain(258, "01000023")])
  }

  function Front(session: string, items: seq<AirItem>): seq<Avp>
  {
    [Plain(263, session)] + [InfoTree(items)]
  }

  function Origin(host: string, realm: string): seq<Avp>
  {
    [Plain(264, host)] + [Plain(296, realm)]
  }

  function Status(): seq<Avp>
  {
    [Plain(268, IntToHex(2001, 4))] + [Plain(277, "00000001")]
  }

  function AnswerForest(session: string, items: seq<AirItem>, host: string, realm: string): seq<Avp>
  {
    Front(session, items) + Origin(host, realm) + Status() + [ApplicationTree()]
  }

  lemma ApplicationFields()
    ensures HexField(266, 8) == "0000010a" && HexField(258, 8) == "00000102" && HexField(12, 6) == "00000c"
  {
    assert Digits(1, 16) == "1" && Digits(16, 16) == "10" && Digits(266, 16) == "10a" && Digits(258, 16) == "102";
  }

  lemma ApplicationLeafText(code: nat, field: string, payload: string)
    requires HexField(code, 8) == field && |field| == 8 && |payload| == 8
    ensures EncodeAvp(Plain(code, payload)) == field + "4000000c" + payload
  {
    hide HexField;
    ApplicationFields();
    PlainAvpShape(code, "40", payload, 12);
    assert Padding(12) == "";
    assert field + "40" + "00000c" == field + "4000000c";
  }

  lemma ApplicationText()
    ensures EncodeForest(ApplicationTree().kids) == "0000010a4000000c000028af000001024000000c01000023"
  {
    hide HexField, EncodeForest, EncodeAvp, Plain;
    var a, b := "0000010a4000000c000028af", "000001024000000c01000023";
    assert "0000010a" + "4000000c" + "000028af" == a;
    assert "00000102" + "4000000c" + "01000023" == b;
    ApplicationFields();
    EncodePair(Plain(266, "000028af"), Plain(258, "01000023"));
    ApplicationLeafText(266, "0000010a", "000028af");
    ApplicationLeafText(258, "00000102", "01000023");
  }

  /** The AVPs of the answer, around the text of the vectors. */
  method PrintAnswer(session: string, vectors: string, host: string, realm: string, ghost items: seq<AirItem>) returns (avp: string)
    requires vectors == EncodeForest(VectorTrees(items))
    ensures avp == EncodeForest(AnswerForest(session, items, host, realm))
  {
    hide GenerateAvp, GenerateVendorAvp, EncodeForest, IntToHex, VectorTrees, Front, Origin, Status;
    ApplicationText();
    AnswerText(session, items, host, realm);
    avp := GenerateAvp(263, "40", session);
    avp := avp + GenerateVendorAvp(1413, "c0", VENDOR_3GPP, vectors);
    ghost var front := avp;
    avp := avp + GenerateAvp(264, "40", host);
    avp := avp + GenerateAvp(296, "40", realm);
    Assoc(front, GenerateAvp(264, "40", host), GenerateAvp(296, "40", realm));
    ghost var middle := avp;
    avp := avp + GenerateAvp(268, "40", IntToHex(2001, 4));
    avp := avp + GenerateAvp(277, "40", "00000001");
    Assoc(middle, GenerateAvp(268, "40", IntToHex(2001, 4)), GenerateAvp(277, "40", "00000001"));
    avp := avp + GenerateAvp(260, "40", "0000010a4000000c000028af000001024000000c01000023");
  }

  lemma AnswerText(session: string, items: seq<AirItem>, host: string, realm: string)
    ensures EncodeForest(Front(session, items)) == EncodeAvp(Plain(263, session)) + EncodeAvp(InfoTree(items))
    ensures EncodeForest(Origin(host, realm)) == EncodeAvp(Plain(264, host)) + EncodeAvp(Plain(296, realm))
    ensures EncodeForest(Status()) == EncodeAvp(Plain(268, IntToHex(2001, 4))) + EncodeAvp(Plain(277, "00000001"))
    ensures EncodeForest(AnswerForest(session, items, host, realm))
      == EncodeForest(Front(session, items)) + EncodeForest(Origin(host, realm)) + EncodeForest(Status()) + EncodeAvp(ApplicationTree())
  {
    hide EncodeForest, EncodeAvp, Plain, InfoTree, IntToHex, ApplicationTree;
    EncodePair(Plain(263, session), InfoTree(items));
    EncodePair(Plain(264, host), Plain(296, realm));
    EncodePair(Plain(268, IntToHex(2001, 4)), Plain(277, "00000001"));
    PartsText(Front(session, items), Origin(host, realm), Status(), ApplicationTree());
  }

  lemma PartsText(a: seq<Avp>, b: seq<Avp>, c: seq<Avp>, d: Avp)
    ensures EncodeForest(a + b + c + [d]) == EncodeForest(a) + EncodeForest(b) + EncodeForest(c) + EncodeAvp(d)
  {
    hide EncodeForest, EncodeAvp;
    LeavesText(a + b, c, d);
    EncodeConcat(a, b);
  }

  // -------------------------------------------- lists of AVPs inside a group

  predicate Fit(f: seq<Avp>)
  {
    forall a :: a in f ==> WellFormed(a) && IsKnownFlags(a.flags)
  }

  predicate Clear(f: seq<Avp>)
  {
    forall a :: a in f ==> Transparent(a)
  }

  lemma ConcatFits(f: seq<Avp>, g: seq<Avp>)
    ensures Fit(f + g) <==> Fit(f) && Fit(g)
    ensures Clear(f + g) <==> Clear(f) && Clear(g)
    ensures GoodForest(f + g) <==> GoodForest(f) && GoodForest(g)
  {
    hide WellFormed, Transparent, Good;
    forall a | a in f || a in g ensures a in f + g { }
  }

  lemma SingleFits(a: Avp)
    ensures Fit([a]) <==> WellFormed(a) && IsKnownFlags(a.flags)
    ensures Clear([a]) <==> Transparent(a)
    ensures GoodForest([a]) <==> Good(a)
  {
    hide WellFormed, Transparent, Good;
    assert a in [a];
  }

  lemma PairFits(a: Avp, b: Avp)
    ensures Fit([a] + [b]) <==> Fit([a]) && Fit([b])
    ensures Clear([a] + [b]) <==> Clear([a]) && Clear([b])
    ensures GoodForest([a] + [b]) <==> Good(a) && Good(b)
  {
    hide Fit, Clear, GoodForest, Good;
    ConcatFits([a], [b]);
    SingleFits(a);
    SingleFits(b);
  }

  lemma GroupFits(code: nat, kids: seq<Avp>)
    requires code < 0x1_0000_0000 && Fit(kids) && 12 + |EncodeForest(kids)| / 2 < 0x100_0000
    ensures var a := Group(code, "c0", Some(VENDOR_3GPP), kids);
      WellFormed(a) && (Transparent(a) <==> Clear(kids)) && ByteLength(a) == 12 + |EncodeForest(kids)| / 2
  {
    hide EncodeForest;
  }

  // ------------------------------------------------------------------- sizes

  /** The sizes that the vector functions produce. */
  predicate VectorSizes(i: AirItem)
  {
    && 0 <= i.number < 0x1_0000_0000
    && |i.vector.rand| == 16 && |i.vector.xres| == 8 && |i.vector.autn| == 16 && |i.vector.kasme| == 32
  }

  /** The key derivation makes 32 bytes, as HMAC-SHA256 does. */
  ghost predicate MakesKeys(kdf: Kdf)
  {
    forall k, m :: |kdf(k, m)| == 32
  }

  lemma KasmeSize(kdf: Kdf, s: Subscription, plmn: seq<Byte>, sqn: seq<Byte>, rand: seq<Byte>)
    requires MakesKeys(kdf)
    ensures |Kasme(kdf, s, plmn, sqn, rand)| == 32
  {
    hide F2F5, F3, F4, Xor;
  }

  /** Every vector of a batch has these sizes. */
  lemma BatchSizes(kdf: Kdf, s: Subscription, plmn: seq<Byte>, rnd: nat -> seq<Byte>, sqn: nat, n: int)
    requires s.Valid() && 0 <= n <= MAX_VECTORS
    requires MakesKeys(kdf) && forall k :: |rnd(k)| == BLOCK
    ensures forall i :: i in IssueBatch(kdf, s, plmn, rnd, sqn, n, 0).items ==> VectorSizes(i)
  {
    hide IssueBatch, GenerateEutranVector, Ceiling, MakesKeys;
    BatchShape(kdf, s, plmn, rnd, sqn, n, 0);
    var items := IssueBatch(kdf, s, plmn, rnd, sqn, n, 0).items;
    forall i | 0 <= i < |items| ensures VectorSizes(items[i]) {
      BatchItem(kdf, s, plmn, rnd, sqn, n, 0, i);
      EutranSizes(kdf, s, sqn + 100 * i, rnd(i), plmn);
    }
  }

  lemma EutranSizes(kdf: Kdf, s: Subscription, sqn: nat, rand: seq<Byte>, plmn: seq<Byte>)
    requires s.Valid() && |rand| == BLOCK && MakesKeys(kdf)
    ensures var v := GenerateEutranVector(kdf, s, sqn, rand, plmn);
      v.Some? ==> |v.value.rand| == 16 && |v.value.xres| == 8 && |v.value.autn| == 16 && |v.value.kasme| == 32
  {
    hide F1, F2F5, SqnBytes, GenerateAutn, Kasme, MakesKeys;
    if SqnBytes(sqn).Some? {
      SqnBytesSize(sqn);
      FunctionSizes(s, SqnBytes(sqn).value[..6], rand);
      AutnSize(s, SqnBytes(sqn).value, rand);
      KasmeSize(kdf, s, plmn, SqnBytes(sqn).value, rand);
    }
  }

  lemma SqnBytesSize(sqn: nat)
    requires SqnBytes(sqn).Some?
    ensures |SqnBytes(sqn).value| >= 6
  {
    hide HexField, Unhexlify;
  }

  lemma AutnSize(s: Subscription, sqn: seq<Byte>, rand: seq<Byte>)
    requires s.Valid() && |rand| == BLOCK && |sqn| >= 6
    ensures |GenerateAutn(s, sqn, rand)| == 16
  {
    hide F1, F2F5, XorByte;
    FunctionSizes(s, sqn[..6], rand);
    F1Front(s, sqn, rand);
  }

  lemma F1Front(s: Subscription, sqn: seq<Byte>, rand: seq<Byte>)
    requires |sqn| >= 6
    ensures F1(s, sqn, rand) == F1(s, sqn[..6], rand)
  {
    hide Temp, Xor, Rotate;
    assert Slice(sqn, 0, 6) == Slice(sqn[..6], 0, 6);
  }

  /** None of the binary payloads of a vector passes for an AVP. */
  predicate IsNoAvp(v: EutranVector)
  {
    && !ValidateSingleAvp(Hexlify(v.rand)) && !ValidateSingleAvp(Hexlify(v.xres))
    && !ValidateSingleAvp(Hexlify(v.autn)) && !ValidateSingleAvp(Hexlify(v.kasme))
  }

  lemma OctetShape(code: nat, b: seq<Byte>)
    requires code < 0x1_0000_0000 && |b| <= 32
    ensures WellFormed(Octet(code, b)) && ByteLength(Octet(code, b)) == 12 + |b|
  {
    hide Hexlify;
  }

  lemma OctetFits(code: nat, b: seq<Byte>)
    requires code < 0x1_0000_0000 && (|b| == 8 || |b| == 16 || |b| == 32)
    ensures Fit([Octet(code, b)]) && (Clear([Octet(code, b)]) <==> !ValidateSingleAvp(Hexlify(b)))
    ensures |EncodeAvp(Octet(code, b))| == 24 + 2 * |b|
  {
    hide ValidateSingleAvp, Hexlify, EncodeAvp, Fit, Clear, WellFormed, Padding, Header;
    OctetShape(code, b);
    SingleFits(Octet(code, b));
    AvpAligned(Octet(code, b));
  }

  lemma NumberFits(n: int)
    requires 0 <= n < 0x1_0000_0000
    ensures Fit([NumberLeaf(n)]) && Clear([NumberLeaf(n)]) && |EncodeAvp(NumberLeaf(n))| == 32
  {
    hide ValidateSingleAvp, HexField, EncodeAvp;
    HexWidths();
    HexFieldReads(n, 8);
    ShortIsNoAvp(HexField(n, 8));
    SingleFits(NumberLeaf(n));
    AvpAligned(NumberLeaf(n));
  }

  lemma LeavesFit(i: AirItem)
    requires VectorSizes(i)
    ensures Fit(VectorLeaves(i)) && (Clear(VectorLeaves(i)) <==> IsNoAvp(i.vector))
    ensures |EncodeForest(VectorLeaves(i))| == 272
  {
    hide Fit, Clear, EncodeAvp, EncodeForest, Octet, NumberLeaf, ValidateSingleAvp, Hexlify;
    var v := i.vector;
    NumberFits(i.number);
    OctetFits(1447, v.rand);
    OctetFits(1448, v.xres);
    OctetFits(1449, v.autn);
    OctetFits(1450, v.kasme);
    VectorText(i);
    PairFits(NumberLeaf(i.number), Octet(1447, v.rand));
    PairFits(Octet(1448, v.xres), Octet(1449, v.autn));
    ConcatFits(ChallengeLeaves(i), TokenLeaves(i));
    ConcatFits(ChallengeLeaves(i) + TokenLeaves(i), [Octet(1450, v.kasme)]);
  }

  /** A printed vector takes 148 bytes; a leaf of it passes for a group exactly if one of the
      binary payloads does. */
  lemma VectorFits(i: AirItem)
    requires VectorSizes(i)
    ensures Fit([VectorTree(i)]) && (Clear([VectorTree(i)]) <==> IsNoAvp(i.vector))
    ensures |EncodeAvp(VectorTree(i))| == 296
  {
    hide Fit, Clear, WellFormed, Transparent, IsNoAvp, EncodeAvp, EncodeForest, VectorLeaves, ByteLength;
    LeavesFit(i);
    GroupFits(1414, VectorLeaves(i));
    SingleFits(VectorTree(i));
    AvpAligned(VectorTree(i));
  }

  lemma {:induction false} VectorsFit(items: seq<AirItem>)
    requires forall i :: i in items ==> VectorSizes(i)
    ensures |EncodeForest(VectorTrees(items))| == 296 * |items|
    ensures Fit(VectorTrees(items))
    ensures Clear(VectorTrees(items)) <==> forall i :: i in items ==> IsNoAvp(i.vector)
  {
    hide Fit, Clear, EncodeAvp, EncodeForest, IsNoAvp, VectorSizes, VectorTree;
    if items == [] {
      NoVectors();
    } else {
      var t, rest := VectorTree(items[0]), items[1..];
      assert items == [items[0]] + rest;
      VectorFits(items[0]);
      VectorsFit(rest);
      VectorTreesCons(items);
      ConcatFits([t], VectorTrees(rest));
      EncodeConcat([t], VectorTrees(rest));
      EncodeSingle(t);
    }
  }

  lemma NoVectors()
    ensures VectorTrees([]) == [] && EncodeForest([]) == "" && Fit([]) && Clear([])
  {
  }

  lemma VectorTreesCons(items: seq<AirItem>)
    requires items != []
    ensures VectorTrees(items) == [VectorTree(items[0])] + VectorTrees(items[1..])
  {
    hide VectorTree;
  }

  // ----------------------------------------------------- the order of the parser

  /** The leaves of all vectors, last vector first. */
  function AllLeaves(items: seq<AirItem>): seq<Avp>
  {
    if items == [] then [] else AllLeaves(items[1..]) + VectorLeaves(items[0])
  }

  lemma LeavesFlat(i: AirItem)
    ensures Flat(VectorLeaves(i)) == VectorLeaves(i) && |VectorLeaves(i)| == 5
  {
    hide Flat, IntToHex, Hexlify;
    FlatOfLeaves(VectorLeaves(i));
  }

  lemma {:induction false} VectorsFlat(items: seq<AirItem>)
    ensures Flat(VectorTrees(items)) == VectorTrees(items) + AllLeaves(items)
    ensures |AllLeaves(items)| == 5 * |items|
  {
    hide Flat, VectorLeaves;
    if items == [] {
      FlatEmpty();
      NoVectors();
    } else {
      var rest, own := VectorTrees(items[1..]), VectorLeaves(items[0]);
      VectorsFlat(items[1..]);
      VectorTreesCons(items);
      LeavesFlat(items[0]);
      FlatOfCons(VectorTree(items[0]), rest);
      Assoc(rest, AllLeaves(items[1..]), own);
      Assoc([VectorTree(items[0])], rest, AllLeaves(items));
    }
  }

  function ApplicationLeaves(): seq<Avp>
  {
    [Plain(266, "000028af")] + [Plain(258, "01000023")]
  }

  lemma PlainPairNested(a: Avp, b: Avp)
    requires a.Leaf?
    ensures NestedAvps([a] + [b]) == Flat(Kids(b))
  {
    hide Flat;
    NestedAvpsConcat([a], [b]);
    NestedAvpsOne(a);
    NestedAvpsOne(b);
    FlatEmpty();
    assert [] + Flat(Kids(b)) == Flat(Kids(b));
  }

  /** The nested AVPs of an answer, in visiting order. */
  lemma AnswerNested(session: string, items: seq<AirItem>, host: string, realm: string)
    ensures NestedAvps(AnswerForest(session, items, host, realm)) == VectorTrees(items) + AllLeaves(items) + ApplicationLeaves()
  {
    hide Flat, VectorTrees, AllLeaves, NestedAvps, Kids;
    PlainPairNested(Plain(263, session), InfoTree(items));
    PlainPairNested(Plain(264, host), Plain(296, realm));
    PlainPairNested(Plain(268, IntToHex(2001, 4)), Plain(277, "00000001"));
    ApplicationNested();
    VectorsFlat(items);
    KidsOf(session, items, host, realm);
    FlatEmpty();
    var a, b, c, d := Front(session, items), Origin(host, realm), Status(), [ApplicationTree()];
    NestedParts(a, b, c, d);
    assert NestedAvps(a) + [] + [] + NestedAvps(d) == NestedAvps(a) + NestedAvps(d);
  }

  lemma KidsOf(session: string, items: seq<AirItem>, host: string, realm: string)
    ensures Kids(InfoTree(items)) == VectorTrees(items) && Kids(Plain(296, realm)) == [] && Kids(Plain(277, "00000001")) == []
  {
  }

  lemma NestedParts(a: seq<Avp>, b: seq<Avp>, c: seq<Avp>, d: seq<Avp>)
    ensures NestedAvps(a + b + c + d) == NestedAvps(a) + NestedAvps(b) + NestedAvps(c) + NestedAvps(d)
  {
    hide NestedAvps;
    NestedAvpsConcat(a + b + c, d);
    NestedAvpsConcat(a + b, c);
    NestedAvpsConcat(a, b);
  }

  lemma ApplicationNested()
    ensures NestedAvps([ApplicationTree()]) == ApplicationLeaves()
  {
    hide Flat;
    NestedAvpsOne(ApplicationTree());
    FlatOfLeaves(ApplicationLeaves());
  }

  /** The number of AVPs in an answer. */
  lemma AnswerSize(session: string, items: seq<AirItem>, host: string, realm: string)
    ensures |Flat(AnswerForest(session, items, host, realm))| == 9 + 6 * |items|
  {
    hide Flat, Plain, VectorTree, AllLeaves, NestedAvps, InfoTree;
    AnswerNested(session, items, host, realm);
    VectorsFlat(items);
    FlatSize(AnswerForest(session, items, host, realm));
  }

  // ------------------------------------------------------------ reading it back

  /** A payload that a leaf of the answer brings back. */
  predicate PayloadReads(payload: string)
  {
    |payload| % 2 == 0 && 8 + |payload| / 2 < 0x100_0000 && !ValidateSingleAvp(payload)
  }

  lemma PlainGood(code: nat, payload: string)
    requires code < 0x1_0000_0000
    ensures Good(Plain(code, payload)) <==> PayloadReads(payload)
  {
    hide ValidateSingleAvp;
  }

  lemma InfoGood(items: seq<AirItem>)
    requires (forall i :: i in items ==> VectorSizes(i)) && |items| <= 15
    ensures Good(InfoTree(items)) <==> forall i :: i in items ==> IsNoAvp(i.vector)
  {
    hide EncodeForest, IsNoAvp, VectorSizes, VectorTrees, Fit, Clear, ByteLength, WellFormed, Transparent;
    VectorsFit(items);
    GroupFits(1413, VectorTrees(items));
  }

  lemma ConstantsRead()
    ensures PayloadReads(IntToHex(2001, 4)) && PayloadReads("00000001") && PayloadReads("000028af") && PayloadReads("01000023")
  {
    hide ValidateSingleAvp, HexField;
    HexWidths();
    HexFieldReads(2001, 8);
    ShortIsNoAvp(IntToHex(2001, 4));
    ShortIsNoAvp("00000001");
    ShortIsNoAvp("000028af");
    ShortIsNoAvp("01000023");
  }

  lemma ApplicationGood()
    ensures Good(ApplicationTree())
  {
    hide EncodeForest, ValidateSingleAvp;
    ApplicationText();
    ConstantsRead();
    PlainGood(266, "000028af");
    PlainGood(258, "01000023");
  }

  lemma AnswerGood(session: string, items: seq<AirItem>, host: string, realm: string)
    ensures GoodForest(AnswerForest(session, items, host, realm))
      <==> PayloadReads(session) && Good(InfoTree(items)) && PayloadReads(host) && PayloadReads(realm)
  {
    hide Good, GoodForest, PayloadReads, Plain, InfoTree, ApplicationTree, IntToHex;
    PlainGood(263, session);
    PlainGood(264, host);
    PlainGood(296, realm);
    PlainGood(268, IntToHex(2001, 4));
    PlainGood(277, "00000001");
    ConstantsRead();
    ApplicationGood();
    PairFits(Plain(263, session), InfoTree(items));
    PairFits(Plain(264, host), Plain(296, realm));
    PairFits(Plain(268, IntToHex(2001, 4)), Plain(277, "00000001"));
    SingleFits(ApplicationTree());
    GoodParts(Front(session, items), Origin(host, realm), Status(), [ApplicationTree()]);
  }

  lemma GoodParts(a: seq<Avp>, b: seq<Avp>, c: seq<Avp>, d: seq<Avp>)
    ensures GoodForest(a + b + c + d) <==> GoodForest(a) && GoodForest(b) && GoodForest(c) && GoodForest(d)
  {
    hide GoodForest;
    ConcatFits(a + b + c, d);
    ConcatFits(a + b, c);
    ConcatFits(a, b);
  }

  /** What a lookup of a vector field finds: the field of every vector, last vector first. */
  function VectorEntries(items: seq<AirItem>, code: int): seq<Entry>
  {
    if items == [] then [] else VectorEntries(items[1..], code) + VectorField(items[0], code)
  }

  function VectorField(i: AirItem, code: int): seq<Entry>
  {
    match code
    case 1419 => [Data(IntToHex(i.number, 4))]
    case 1447 => [Data(Hexlify(i.vector.rand))]
    case 1448 => [Data(Hexlify(i.vector.xres))]
    case 1449 => [Data(Hexlify(i.vector.autn))]
    case 1450 => [Data(Hexlify(i.vector.kasme))]
    case _ => []
  }

  predicate IsVectorCode(code: int)
  {
    code == 1419 || code == 1447 || code == 1448 || code == 1449 || code == 1450
  }

  lemma PairPayloads(a: Avp, b: Avp, code: int)
    ensures Payloads([a] + [b], code) == Own(a, code) + Own(b, code)
  {
    hide Payloads, Own;
    PayloadsConcat([a], [b], code);
    PayloadsSingle(a, code);
    PayloadsSingle(b, code);
  }

  lemma LeafPayloads(i: AirItem, code: int)
    requires IsVectorCode(code)
    ensures Payloads(VectorLeaves(i), code) == VectorField(i, code)
  {
    hide Payloads, IntToHex, Hexlify, ChallengeLeaves, TokenLeaves;
    var a, b, c, d, e := NumberLeaf(i.number), Octet(1447, i.vector.rand), Octet(1448, i.vector.xres),
      Octet(1449, i.vector.autn), Octet(1450, i.vector.kasme);
    LeafParts(i);
    PairPayloads(a, b, code);
    PairPayloads(c, d, code);
    PayloadsSingle(e, code);
    PayloadsConcat(ChallengeLeaves(i), TokenLeaves(i), code);
    PayloadsConcat(ChallengeLeaves(i) + TokenLeaves(i), [e], code);
  }

  lemma LeafParts(i: AirItem)
    ensures ChallengeLeaves(i) == [NumberLeaf(i.number)] + [Octet(1447, i.vector.rand)]
    ensures TokenLeaves(i) == [Octet(1448, i.vector.xres)] + [Octet(1449, i.vector.autn)]
  {
  }

  lemma {:induction false} VectorPayloads(items: seq<AirItem>, code: int)
    requires IsVectorCode(code)
    ensures Payloads(AllLeaves(items), code) == VectorEntries(items, code)
    ensures Payloads(VectorTrees(items), code) == []
  {
    hide Payloads, VectorField, VectorLeaves, VectorTrees;
    if items == [] {
      NoPayload(code);
      NoVectors();
    } else {
      VectorPayloads(items[1..], code);
      LeafPayloads(items[0], code);
      PayloadsConcat(AllLeaves(items[1..]), VectorLeaves(items[0]), code);
      VectorTreesCons(items);
      PayloadsCons(VectorTree(items[0]), VectorTrees(items[1..]), code);
    }
  }

  lemma AnswerPayloads(session: string, items: seq<AirItem>, host: string, realm: string, code: int)
    requires IsVectorCode(code)
    ensures Payloads(NestedAvps(AnswerForest(session, items, host, realm)), code) == VectorEntries(items, code)
  {
    hide Payloads, NestedAvps, AnswerForest, VectorTrees, AllLeaves, VectorEntries;
    AnswerNested(session, items, host, realm);
    VectorPayloads(items, code);
    PairPayloads(Plain(266, "000028af"), Plain(258, "01000023"), code);
    PayloadsConcat(VectorTrees(items) + AllLeaves(items), ApplicationLeaves(), code);
    PayloadsConcat(VectorTrees(items), AllLeaves(items), code);
    assert [] + VectorEntries(items, code) + [] == VectorEntries(items, code);
  }

  lemma AnswerCodes(session: string, items: seq<AirItem>, host: string, realm: string, code: int)
    requires IsVectorCode(code)
    ensures forall a :: a in AnswerForest(session, items, host, realm) ==> a.code != code
    ensures !EndsBare(AnswerForest(session, items, host, realm))
  {
    hide Content, VectorTrees, IntToHex, EndsBare;
    NotBare(Front(session, items) + Origin(host, realm) + Status());
    forall a | a in AnswerForest(session, items, host, realm)
      ensures a in Front(session, items) || a in Origin(host, realm) || a in Status() || a == ApplicationTree()
    { }
  }

  lemma NotBare(before: seq<Avp>)
    ensures !EndsBare(before + [ApplicationTree()])
  {
    hide Content;
    ApplicationText();
    ContentOfGroup(ApplicationTree());
  }

  /** The exact condition for the peer to read a whole answer: at most 15 vectors (the parser
      stops after 100 AVPs), no binary payload that passes for an AVP, and a session id and
      origin that fit. */
  predicate Answerable(session: string, items: seq<AirItem>, host: string, realm: string)
  {
    && |items| <= 15 && (forall i :: i in items ==> IsNoAvp(i.vector))
    && PayloadReads(session) && PayloadReads(host) && PayloadReads(realm)
  }

  /** An answer reads back exactly if it is answerable; then every field of every vector is
      found, last vector first. */
  lemma AnswerReadsBack(session: string, items: seq<AirItem>, host: string, realm: string, code: int)
    requires (forall i :: i in items ==> VectorSizes(i)) && IsVectorCode(code)
    ensures var f := AnswerForest(session, items, host, realm);
      Decode(EncodeForest(f)) == TopRecords(f) <==> Answerable(session, items, host, realm)
    ensures var f := AnswerForest(session, items, host, realm);
      Answerable(session, items, host, realm) ==> Select(Decode(EncodeForest(f)), code) == VectorEntries(items, code)
  {
    hide Decode, EncodeForest, TopRecords, GoodForest, IsNoAvp, PayloadReads, VectorSizes, Flat, Select, Entries, WithCode, Visit;
    hide Payloads, NestedAvps, VectorEntries, AnswerForest, InfoTree, EndsBare, Good;
    var f := AnswerForest(session, items, host, realm);
    AnswerSize(session, items, host, realm);
    AnswerCodes(session, items, host, realm, code);
    AnswerGood(session, items, host, realm);
    RoundTripIff(f);
    if |items| <= 15 {
      InfoGood(items);
      if Answerable(session, items, host, realm) {
        LookupAfterRoundTrip(f, code);
        NestedLookup(f, code);
        AnswerPayloads(session, items, host, realm, code);
      }
    }
  }

  lemma AnswerAt(session: string, items: seq<AirItem>, host: string, realm: string)
    ensures var f := AnswerForest(session, items, host, realm);
      && |f| == 7 && f[0] == Plain(263, session) && f[1] == InfoTree(items) && f[2] == Plain(264, host) && f[3] == Plain(296, realm)
      && f[4] == Plain(268, IntToHex(2001, 4)) && f[5] == Plain(277, "00000001") && f[6] == ApplicationTree()
  {
    hide Plain, InfoTree, IntToHex, ApplicationTree;
  }

  lemma SuccessCode()
    ensures IntToHex(2001, 4) == "000007d1"
  {
    assert Digits(7, 16) == "7" && Digits(125, 16) == "7d" && Digits(2001, 16) == "7d1";
  }

  lemma PlainRecord(code: nat, payload: string)
    ensures RecordOf(Plain(code, payload)) == AvpRecord(code, "40", 8 + |payload| / 2, None, payload)
  {
  }

  /** The top level of an answer as the peer reads it: session id, vectors, origin, success,
      no state maintained, and the S6a application. */
  lemma AnswerTopReads(session: string, items: seq<AirItem>, host: string, realm: string)
    requires (forall i :: i in items ==> VectorSizes(i)) && Answerable(session, items, host, realm)
    ensures var avps := Decode(EncodeForest(AnswerForest(session, items, host, realm)));
      && |avps| == 7
      && avps[0] == TopRecord(AvpRecord(263, "40", 8 + |session| / 2, None, session), [])
      && avps[1].avp == AvpRecord(1413, "c0", 12 + 148 * |items|, Some(10415), "")
      && avps[2] == TopRecord(AvpRecord(264, "40", 8 + |host| / 2, None, host), [])
      && avps[3] == TopRecord(AvpRecord(296, "40", 8 + |realm| / 2, None, realm), [])
      && avps[4] == TopRecord(AvpRecord(268, "40", 12, None, "000007d1"), [])
      && avps[5] == TopRecord(AvpRecord(277, "40", 12, None, "00000001"), [])
      && avps[6] == TopRecord(AvpRecord(260, "40", 32, None, ""),
                              [AvpRecord(266, "40", 12, None, "000028af"), AvpRecord(258, "40", 12, None, "01000023")])
  {
    hide Decode, EncodeForest, TopRecords, AnswerForest, Plain, InfoTree, Answerable, RecordOf, Flat, IntToHex, VectorSizes, ApplicationTree;
    var f := AnswerForest(session, items, host, realm);
    AnswerReadsBack(session, items, host, realm, 1447);
    AnswerAt(session, items, host, realm);
    SuccessCode();
    TopRecordsCount(f);
    forall i: nat | i < 7 ensures TopRecords(f)[i] == TopRecord(RecordOf(f[i]), Records(Flat(Kids(f[i])))) { TopRecordsAt(f, i); }
    PlainTop(263, session);
    PlainTop(264, host);
    PlainTop(296, realm);
    PlainTop(268, IntToHex(2001, 4));
    PlainTop(277, "00000001");
    InfoRecord(items);
    ApplicationRecord();
  }

  lemma PlainTop(code: nat, payload: string)
    ensures TopRecord(RecordOf(Plain(code, payload)), Records(Flat(Kids(Plain(code, payload)))))
      == TopRecord(AvpRecord(code, "40", 8 + |payload| / 2, None, payload), [])
  {
    FlatEmpty();
    PlainRecord(code, payload);
  }

  lemma InfoRecord(items: seq<AirItem>)
    requires forall i :: i in items ==> VectorSizes(i)
    ensures RecordOf(InfoTree(items)) == AvpRecord(1413, "c0", 12 + 148 * |items|, Some(10415), "")
  {
    hide EncodeForest, VectorTrees, VectorSizes;
    VectorsFit(items);
  }

  lemma ApplicationRecord()
    ensures RecordOf(ApplicationTree()) == AvpRecord(260, "40", 32, None, "")
    ensures Records(Flat(Kids(ApplicationTree())))
      == [AvpRecord(266, "40", 12, None, "000028af"), AvpRecord(258, "40", 12, None, "01000023")]
  {
    hide EncodeForest, Flat;
    ApplicationText();
    FlatOfLeaves(ApplicationLeaves());
    PlainRecord(266, "000028af");
    PlainRecord(258, "01000023");
  }

  /** Every AVP inside the vectors is a mandatory 3GPP AVP of one of the six codes. */
  lemma {:induction false} VectorHeaders(items: seq<AirItem>)
    ensures forall a :: a in VectorTrees(items) + AllLeaves(items) ==>
      a.flags == "c0" && a.vendor == Some(10415) && (a.code == 1414 || IsVectorCode(a.code))
  {
    hide IntToHex, Hexlify;
    if items != [] {
      VectorHeaders(items[1..]);
      VectorTreesCons(items);
    }
  }

  /** The answer to a request that succeeds: the peer reads all of it exactly if at most 15
      vectors were asked for and no payload passes for an AVP. */
  lemma RequestAnswered(kdf: Kdf, s: Subscription, plmn: seq<Byte>, rnd: nat -> seq<Byte>, avps: seq<TopRecord>, stored: nat,
                        session: string, host: string, realm: string)
    requires s.Valid() && MakesKeys(kdf) && forall k :: |rnd(k)| == BLOCK
    requires var plan := PlanRequest(s, avps, stored);
      !plan.raised && !IssueBatch(kdf, s, plmn, rnd, plan.sqn, plan.requested, 0).raised
    ensures var plan := PlanRequest(s, avps, stored);
      var items := IssueBatch(kdf, s, plmn, rnd, plan.sqn, plan.requested, 0).items;
      var f := AnswerForest(session, items, host, realm);
      Decode(EncodeForest(f)) == TopRecords(f)
      <==> && plan.requested <= 15 && (forall i :: i in items ==> IsNoAvp(i.vector))
           && PayloadReads(session) && PayloadReads(host) && PayloadReads(realm)
  {
    hide PlanRequest, IssueBatch, Decode, EncodeForest, TopRecords, AnswerForest, IsNoAvp, PayloadReads, CountAfter, MakesKeys;
    hide StoredAfter, Readable, GenerateEutranVector, Ceiling, AuthInfo;
    var plan := PlanRequest(s, avps, stored);
    AirVectors(kdf, s, plmn, rnd, avps, stored);
    BatchShape(kdf, s, plmn, rnd, plan.sqn, plan.requested, 0);
    BatchSizes(kdf, s, plmn, rnd, plan.sqn, plan.requested);
    AnswerReadsBack(session, IssueBatch(kdf, s, plmn, rnd, plan.sqn, plan.requested, 0).items, host, realm, 1447);
  }
}
