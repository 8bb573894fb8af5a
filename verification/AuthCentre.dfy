/** The HSS side of authentication: `Get_Vectors_AuC` stepping one stored sequence number,
    and the vector loop of the Authentication-Information answer. */
module AuthCentre {
  import opened PyText
  import opened Octets
  import opened AvpCodec
  import opened AvpForest
  import opened AvpQuery
  import opened AvpText
  import opened Milenage
  import opened AuthVectors

  const SQN_STEP: nat := 100
  const MAX_VECTORS: nat := 32

  /** The EAP-AKA vector with its MAC and anonymity key. */
  datatype EapVector = EapVector(aka: AkaVector, mac: seq<Byte>, ak: seq<Byte>)

  /** The stored value after a re-synchronisation; `None` where a step of it raises. */
  function ResyncedSqn(s: Subscription, autsHex: string, rand: seq<Byte>): Option<nat>
  {
    var auts := Unhexlify(autsHex);
    if auts.None? then None
    else
      var r := GenerateResync(s, auts.value, rand);
      if r.None? then None else Some(r.value.0 + SQN_STEP)
  }

  // ------------------------------------------------- one AIR, as a specification

  /** One Item-Number with its vector. */
  datatype AirItem = AirItem(number: int, vector: EutranVector)

  datatype Batch = Batch(items: seq<AirItem>, sqn: nat, raised: bool)

  /** How far a stored value is from the end of the values that can be printed. */
  function Room(sqn: nat): nat
  {
    if sqn < Ceiling(sqn) then Ceiling(sqn) - sqn else 0
  }

  lemma RoomShrinks(sqn: nat)
    requires SqnBytes(sqn).Some?
    ensures Room(sqn + SQN_STEP) < Room(sqn)
  {
    hide Ceiling, SqnBytes;
    CeilingStep(sqn, sqn + SQN_STEP);
  }

  /** Issuing vectors while the count is not zero, from a stored value; `rnd` supplies the
      challenges from number `k`.  A negative count ends only in an exception. */
  function IssueBatch(kdf: Kdf, s: Subscription, plmn: seq<Byte>, rnd: nat -> seq<Byte>, sqn: nat, n: int, k: nat): Batch
    decreases if n >= 0 then n else Room(sqn)
  {
    if n == 0 then Batch([], sqn, false)
    else
      var v := GenerateEutranVector(kdf, s, sqn, rnd(k), plmn);
      if v.None? then Batch([], sqn, true)
      else
        RoomShrinks(sqn);
        var rest := IssueBatch(kdf, s, plmn, rnd, sqn + SQN_STEP, n - 1, k + 1);
        rest.(items := [AirItem(n, v.value)] + rest.items)
  }

  /** The value that a Re-Synchronization-Info payload puts into the record; `None` where
      reading it raises. */
  function TokenSqn(s: Subscription, data: string): Option<nat>
  {
    var rand := Unhexlify(Slice(data, 0, 32));
    if rand.None? then None else ResyncedSqn(s, Drop(data, 32), rand.value)
  }

  datatype Plan = Plan(sqn: nat, requested: int, raised: bool)

  /** The scan of Requested-EUTRAN-Authentication-Info: re-synchronisations are applied as
      they come, the last vector count wins, and it is capped. */
  function PlanAir(s: Subscription, info: seq<AvpRecord>, sqn: nat, requested: int): Plan
  {
    if info == [] then Plan(sqn, requested, false)
    else
      var a := info[0];
      if a.code == 1411 then
        var sqn' := TokenSqn(s, a.data);
        if sqn'.None? then Plan(sqn, requested, true) else PlanAir(s, info[1..], sqn'.value, requested)
      else if a.code == 1410 then
        var n := ParseInt(a.data, 16);
        if n.None? then Plan(sqn, requested, true) else PlanAir(s, info[1..], sqn, Capped(n.value))
      else PlanAir(s, info[1..], sqn, requested)
  }

  function Capped(n: int): int
  {
    if n >= MAX_VECTORS then MAX_VECTORS else n
  }

  /** The sub-AVPs of the first AVP 1408; looping over text that is not empty raises. */
  function AuthInfo(avps: seq<TopRecord>): Option<seq<AvpRecord>>
  {
    var found := Select(avps, 1408);
    if found == [] || found[0] == Data("") then Some([])
    else if found[0].SubList? then Some(found[0].subs)
    else None
  }

  function PlanRequest(s: Subscription, avps: seq<TopRecord>, sqn: nat): Plan
  {
    var info := AuthInfo(avps);
    if info.None? then Plan(sqn, 1, true) else PlanAir(s, info.value, sqn, 1)
  }

  function Octet(code: nat, b: seq<Byte>): Avp
  {
    Leaf(code, "c0", Some(VENDOR_3GPP), Hexlify(b))
  }

  function NumberLeaf(n: int): Avp
  {
    Leaf(1419, "c0", Some(VENDOR_3GPP), IntToHex(n, 4))
  }

  function ChallengeLeaves(i: AirItem): seq<Avp>
  {
    [NumberLeaf(i.number)] + [Octet(1447, i.vector.rand)]
  }

  function TokenLeaves(i: AirItem): seq<Avp>
  {
    [Octet(1448, i.vector.xres)] + [Octet(1449, i.vector.autn)]
  }

  function VectorLeaves(i: AirItem): seq<Avp>
  {
    ChallengeLeaves(i) + TokenLeaves(i) + [Octet(1450, i.vector.kasme)]
  }

  /** One E-UTRAN-Vector AVP. */
  function VectorTree(i: AirItem): Avp
  {
    Group(1414, "c0", Some(VENDOR_3GPP), VectorLeaves(i))
  }

  function VectorTrees(items: seq<AirItem>): (r: seq<Avp>)
    ensures |r| == |items| && forall i :: 0 <= i < |items| ==> r[i] == VectorTree(items[i])
  {
    seq(|items|, i requires 0 <= i < |items| => VectorTree(items[i]))
  }

  // -------------------------------------------------------- the stored record

  /** One AUC row: the key material is fixed, the sequence number moves. */
  class Centre {
    const sub: Subscription
    const kdf: Kdf
    var sqn: nat

    constructor (sub: Subscription, kdf: Kdf, sqn: nat)
      ensures this.sub == sub && this.kdf == kdf && this.sqn == sqn
    {
      this.sub, this.kdf, this.sqn := sub, kdf, sqn;
    }

    /** Action "air". */
    method Air(rand: seq<Byte>, plmn: seq<Byte>) returns (v: Option<EutranVector>)
      modifies this`sqn
      ensures v == GenerateEutranVector(kdf, sub, old(sqn), rand, plmn)
      ensures sqn == if v.Some? then old(sqn) + SQN_STEP else old(sqn)
    {
      v := GenerateEutranVector(kdf, sub, sqn, rand, plmn);
      if v.None? {
        return;
      }
      sqn := sqn + SQN_STEP;
    }

    /** Action "sip_auth". */
    method SipAuth(rand: seq<Byte>) returns (v: Option<AkaVector>)
      modifies this`sqn
      ensures v == GenerateAkaVector(sub, old(sqn), rand)
      ensures sqn == if v.Some? then old(sqn) + SQN_STEP else old(sqn)
    {
      v := GenerateAkaVector(sub, sqn, rand);
      if v.None? {
        return;
      }
      sqn := sqn + SQN_STEP;
    }

    /** Action "eap_aka". */
    method EapAka(rand: seq<Byte>) returns (v: Option<EapVector>)
      modifies this`sqn
      ensures v.Some? <==> SqnBytes(old(sqn)).Some?
      ensures v.Some? ==>
        && Some(v.value.aka) == GenerateAkaVector(sub, old(sqn), rand)
        && v.value.mac == F1(sub, SqnBytes(old(sqn)).value, rand).0 && v.value.ak == F2F5(sub, rand).1
      ensures sqn == if v.Some? then old(sqn) + SQN_STEP else old(sqn)
    {
      var aka := GenerateAkaVector(sub, sqn, rand);
      if aka.None? {
        return None;
      }
      v := Some(EapVector(aka.value, F1(sub, SqnBytes(sqn).value, rand).0, F2F5(sub, rand).1));
      sqn := sqn + SQN_STEP;
    }

    /** Action "sqn_resync": the stored value moves to just above the one in AUTS. */
    method SqnResync(auts: string, rand: seq<Byte>) returns (ok: bool)
      modifies this`sqn
      ensures ok == ResyncedSqn(sub, auts, rand).Some?
      ensures sqn == if ok then ResyncedSqn(sub, auts, rand).value else old(sqn)
    {
      var target := ResyncedSqn(sub, auts, rand);
      ok := target.Some?;
      if ok {
        sqn := target.value;
      }
    }

    /** The loop over the sub-AVPs of the request.  `None` is an exception. */
    method ScanInfo(info: seq<AvpRecord>) returns (requested: Option<int>)
      modifies this`sqn
      ensures var plan := PlanAir(sub, info, old(sqn), 1);
        sqn == plan.sqn && requested == if plan.raised then None else Some(plan.requested)
    {
      hide ResyncedSqn, Unhexlify, ParseInt;
      var count: int := 1;
      for i := 0 to |info|
        invariant PlanAir(sub, info[i..], sqn, count) == PlanAir(sub, info, old(sqn), 1)
      {
        var a := info[i];
        assert info[i..][1..] == info[i + 1..];
        if a.code == 1411 {
          var rand := Unhexlify(Slice(a.data, 0, 32));
          if rand.None? {
            return None;
          }
          var ok := SqnResync(Drop(a.data, 32), rand.value);
          if !ok {
            return None;
          }
        }
        if a.code == 1410 {
          var n := ParseInt(a.data, 16);
          if n.None? {
            return None;
          }
          count := n.value;
          if count >= MAX_VECTORS {
            count := MAX_VECTORS;
          }
        }
      }
      requested := Some(count);
    }

    /** The scan of the request. */
    method ScanRequest(avps: seq<TopRecord>) returns (requested: Option<int>)
      modifies this`sqn
      ensures var plan := PlanRequest(sub, avps, old(sqn));
        sqn == plan.sqn && requested == if plan.raised then None else Some(plan.requested)
    {
      var found := GetAvpData(avps, 1408);
      if |found| == 0 || found[0] == Data("") {
        return Some(1);
      }
      match found[0] {
        case Data(_) => return None;
        case SubList(subs) => requested := ScanInfo(subs);
      }
    }

    /** The vector loop of the Authentication-Information answer: the text of the
        E-UTRAN-Vector AVPs, or `None` where the handler logs an exception. */
    method AnswerAir(avps: seq<TopRecord>, plmn: seq<Byte>, rnd: nat -> seq<Byte>) returns (vectors: Option<string>)
      modifies this`sqn
      ensures var plan := PlanRequest(sub, avps, old(sqn));
        if plan.raised then sqn == plan.sqn && vectors.None?
        else
          var batch := IssueBatch(kdf, sub, plmn, rnd, plan.sqn, plan.requested, 0);
          sqn == batch.sqn
          && vectors == if batch.raised then None else Some(EncodeForest(VectorTrees(batch.items)))
    {
      hide PlanRequest, EncodeForest, GenerateEutranVector, VectorTrees, IssueBatch, Preceded, Room;
      var scanned := ScanRequest(avps);
      if scanned.None? {
        return None;
      }
      var requested, text, k := scanned.value, "", 0;
      ghost var items: seq<AirItem> := [];
      ghost var whole := IssueBatch(kdf, sub, plmn, rnd, sqn, requested, 0);
      NothingIssued(whole);
      while requested != 0
        invariant text == EncodeForest(VectorTrees(items))
        invariant Preceded(items, IssueBatch(kdf, sub, plmn, rnd, sqn, requested, k)) == whole
        decreases if requested >= 0 then requested else Room(sqn)
      {
        BatchStep(kdf, sub, plmn, rnd, sqn, requested, k, items);
        var v := Air(rnd(k), plmn);
        if v.None? {
          return None;
        }
        var item := AirItem(requested, v.value);
        var avp := PrintVector(item);
        OneMoreVector(items, item);
        text := text + avp;
        items := items + [item];
        requested, k := requested - 1, k + 1;
      }
      BatchDone(kdf, sub, plmn, rnd, sqn, k, items);
      vectors := Some(text);
    }
  }

  lemma NothingIssued(whole: Batch)
    ensures Preceded([], whole) == whole && EncodeForest(VectorTrees([])) == ""
  {
    assert [] + whole.items == whole.items;
    EncodeNothing();
    assert VectorTrees([]) == [];
  }

  lemma BatchStep(kdf: Kdf, s: Subscription, plmn: seq<Byte>, rnd: nat -> seq<Byte>, sqn: nat, n: int, k: nat, items: seq<AirItem>)
    requires n != 0
    ensures var v := GenerateEutranVector(kdf, s, sqn, rnd(k), plmn);
      var whole := Preceded(items, IssueBatch(kdf, s, plmn, rnd, sqn, n, k));
      if v.None? then whole.raised && whole.sqn == sqn
      else
        && Room(sqn + SQN_STEP) < Room(sqn)
        && whole == Preceded(items + [AirItem(n, v.value)], IssueBatch(kdf, s, plmn, rnd, sqn + SQN_STEP, n - 1, k + 1))
  {
    hide GenerateEutranVector, Room;
    var v := GenerateEutranVector(kdf, s, sqn, rnd(k), plmn);
    VectorPrints(kdf, s, sqn, rnd(k), plmn);
    if v.Some? {
      RoomShrinks(sqn);
      Assoc(items, [AirItem(n, v.value)], IssueBatch(kdf, s, plmn, rnd, sqn + SQN_STEP, n - 1, k + 1).items);
    }
  }

  lemma VectorPrints(kdf: Kdf, s: Subscription, sqn: nat, rand: seq<Byte>, plmn: seq<Byte>)
    ensures GenerateEutranVector(kdf, s, sqn, rand, plmn).Some? <==> SqnBytes(sqn).Some?
  {
  }

  lemma BatchDone(kdf: Kdf, s: Subscription, plmn: seq<Byte>, rnd: nat -> seq<Byte>, sqn: nat, k: nat, items: seq<AirItem>)
    ensures Preceded(items, IssueBatch(kdf, s, plmn, rnd, sqn, 0, k)) == Batch(items, sqn, false)
  {
    assert items + [] == items;
  }

  lemma OneMoreVector(items: seq<AirItem>, item: AirItem)
    ensures EncodeForest(VectorTrees(items + [item])) == EncodeForest(VectorTrees(items)) + EncodeAvp(VectorTree(item))
  {
    hide EncodeForest, EncodeAvp, VectorTree;
    assert VectorTrees(items + [item]) == VectorTrees(items) + [VectorTree(item)];
    EncodeConcat(VectorTrees(items), [VectorTree(item)]);
    EncodeSingle(VectorTree(item));
  }

  ghost function Preceded(items: seq<AirItem>, rest: Batch): Batch
  {
    rest.(items := items + rest.items)
  }

  method PrintVector(i: AirItem) returns (avp: string)
    ensures avp == EncodeAvp(VectorTree(i))
  {
    hide GenerateVendorAvp, EncodeForest, IntToHex, Hexlify, ChallengeLeaves, TokenLeaves;
    var number := GenerateVendorAvp(1419, "c0", VENDOR_3GPP, IntToHex(i.number, 4));
    var rand := GenerateVendorAvp(1447, "c0", VENDOR_3GPP, Hexlify(i.vector.rand));
    var xres := GenerateVendorAvp(1448, "c0", VENDOR_3GPP, Hexlify(i.vector.xres));
    var autn := GenerateVendorAvp(1449, "c0", VENDOR_3GPP, Hexlify(i.vector.autn));
    var kasme := GenerateVendorAvp(1450, "c0", VENDOR_3GPP, Hexlify(i.vector.kasme));
    avp := GenerateVendorAvp(1414, "c0", VENDOR_3GPP, number + rand + xres + autn + kasme);
    VectorText(i);
    Assoc(number + rand, xres, autn);
  }

  lemma VectorText(i: AirItem)
    ensures EncodeForest(ChallengeLeaves(i)) == EncodeAvp(NumberLeaf(i.number)) + EncodeAvp(Octet(1447, i.vector.rand))
    ensures EncodeForest(TokenLeaves(i)) == EncodeAvp(Octet(1448, i.vector.xres)) + EncodeAvp(Octet(1449, i.vector.autn))
    ensures EncodeForest(VectorLeaves(i))
      == EncodeForest(ChallengeLeaves(i)) + EncodeForest(TokenLeaves(i)) + EncodeAvp(Octet(1450, i.vector.kasme))
  {
    hide EncodeForest, EncodeAvp, NumberLeaf, Octet;
    EncodePair(NumberLeaf(i.number), Octet(1447, i.vector.rand));
    EncodePair(Octet(1448, i.vector.xres), Octet(1449, i.vector.autn));
    LeavesText(ChallengeLeaves(i), TokenLeaves(i), Octet(1450, i.vector.kasme));
  }

  lemma LeavesText(a: seq<Avp>, b: seq<Avp>, c: Avp)
    ensures EncodeForest(a + b + [c]) == EncodeForest(a) + EncodeForest(b) + EncodeAvp(c)
  {
    hide EncodeForest, EncodeAvp;
    EncodeConcat(a + b, [c]);
    EncodeConcat(a, b);
    EncodeSingle(c);
  }

  // ------------------------------------------------------- what a batch holds

  /** For every stored value and count: a batch raises exactly if the count is negative or its
      last sequence number cannot be printed.  Without an exception all vectors are issued;
      with one, the vectors issued before it have moved the stored value, up to the first
      value that cannot be printed. */
  lemma {:induction false} BatchShape(kdf: Kdf, s: Subscription, plmn: seq<Byte>, rnd: nat -> seq<Byte>, sqn: nat, n: int, k: nat)
    ensures var b := IssueBatch(kdf, s, plmn, rnd, sqn, n, k);
      && (b.raised <==> n < 0 || (n > 0 && sqn + 100 * (n - 1) >= Ceiling(sqn)))
      && b.sqn == sqn + 100 * |b.items|
      && (n >= 0 ==> |b.items| <= n) && (!b.raised ==> |b.items| == n)
      && (b.raised ==> b.sqn >= Ceiling(sqn) && n != |b.items|)
      && (b.items != [] ==> b.sqn - 100 < Ceiling(sqn))
    decreases if n >= 0 then n else Room(sqn)
  {
    hide GenerateEutranVector, SqnBytes, Ceiling, Room;
    if n != 0 {
      VectorPrints(kdf, s, sqn, rnd(k), plmn);
      if SqnBytes(sqn).Some? {
        RoomShrinks(sqn);
        CeilingStep(sqn, sqn + SQN_STEP);
        BatchShape(kdf, s, plmn, rnd, sqn + SQN_STEP, n - 1, k + 1);
      } else {
        NoCeiling(sqn);
      }
    }
  }

  lemma NoCeiling(sqn: nat)
    requires SqnBytes(sqn).None?
    ensures Ceiling(sqn) == 0
  {
  }

  /** The vectors of a batch: Item-Numbers count down, sequence numbers go up in steps of 100
      from the stored value, and each vector uses its own challenge. */
  lemma {:induction false} BatchItem(kdf: Kdf, s: Subscription, plmn: seq<Byte>, rnd: nat -> seq<Byte>, sqn: nat, n: int, k: nat, i: nat)
    requires i < |IssueBatch(kdf, s, plmn, rnd, sqn, n, k).items|
    ensures IssueBatch(kdf, s, plmn, rnd, sqn, n, k).items[i].number == n - i
    ensures GenerateEutranVector(kdf, s, sqn + 100 * i, rnd(k + i), plmn)
      == Some(IssueBatch(kdf, s, plmn, rnd, sqn, n, k).items[i].vector)
    decreases i
  {
    hide GenerateEutranVector, Room;
    if i > 0 {
      BatchItem(kdf, s, plmn, rnd, sqn + SQN_STEP, n - 1, k + 1, i - 1);
      assert sqn + SQN_STEP + 100 * (i - 1) == sqn + 100 * i && k + 1 + (i - 1) == k + i;
    }
  }

  // ----------------------------------------------------- what a request asks for

  /** The last AVP with a code. */
  function LastWith(info: seq<AvpRecord>, code: int): (r: Option<AvpRecord>)
    ensures r.None? <==> forall a :: a in info ==> a.code != code
    ensures r.Some? ==> r.value in info && r.value.code == code
  {
    if info == [] then None
    else if info[|info| - 1].code == code then Some(info[|info| - 1])
    else LastWith(info[..|info| - 1], code)
  }

  lemma {:induction false} LastOfCons(a: AvpRecord, rest: seq<AvpRecord>, code: int)
    ensures LastWith([a] + rest, code)
      == if LastWith(rest, code).Some? then LastWith(rest, code) else if a.code == code then Some(a) else None
  {
    var info := [a] + rest;
    if rest == [] {
      assert info[..0] == [];
      assert LastWith([], code).None?;
    } else {
      assert info[|info| - 1] == rest[|rest| - 1];
      assert info[..|info| - 1] == [a] + rest[..|rest| - 1];
      LastOfCons(a, rest[..|rest| - 1], code);
    }
  }

  /** An AVP that the scan reads without an exception. */
  predicate Readable(s: Subscription, a: AvpRecord)
  {
    && (a.code == 1411 ==> TokenSqn(s, a.data).Some?)
    && (a.code == 1410 ==> ParseInt(a.data, 16).Some?)
  }

  /** The AVPs in front of the first one that raises. */
  function ReadablePart(s: Subscription, info: seq<AvpRecord>): (r: seq<AvpRecord>)
    ensures r <= info && (forall a :: a in r ==> Readable(s, a))
    ensures |r| < |info| ==> !Readable(s, info[|r|])
    ensures r == info <==> forall a :: a in info ==> Readable(s, a)
  {
    if info == [] || !Readable(s, info[0]) then []
    else
      var rest := ReadablePart(s, info[1..]);
      assert info == [info[0]] + info[1..];
      [info[0]] + rest
  }

  /** The stored value after a scan: the last token decides. */
  function StoredAfter(s: Subscription, info: seq<AvpRecord>, stored: nat): nat
  {
    var token := LastWith(info, 1411);
    var sqn := if token.None? then None else TokenSqn(s, token.value.data);
    if sqn.None? then stored else sqn.value
  }

  /** The number of vectors asked for: the last count decides, up to 32. */
  function CountAfter(info: seq<AvpRecord>, default: int): int
  {
    var count := LastWith(info, 1410);
    var n := if count.None? then None else ParseInt(count.value.data, 16);
    if n.None? then default else if n.value < 32 then n.value else 32
  }

  lemma {:induction false} PlanFrom(s: Subscription, info: seq<AvpRecord>, sqn: nat, requested: int)
    ensures var read := ReadablePart(s, info);
      PlanAir(s, info, sqn, requested) == Plan(StoredAfter(s, read, sqn), CountAfter(read, requested), read != info)
  {
    hide TokenSqn, ParseInt, LastWith;
    if info == [] {
      assert LastWith([], 1411).None? && LastWith([], 1410).None?;
    } else if Readable(s, info[0]) {
      var a, rest := info[0], ReadablePart(s, info[1..]);
      assert info == [a] + info[1..];
      assert ReadablePart(s, info) == [a] + rest;
      LastOfCons(a, rest, 1411);
      LastOfCons(a, rest, 1410);
      LastIsReadable(s, rest);
      PlanFrom(s, info[1..], sqn, requested);
      if a.code == 1411 { PlanFrom(s, info[1..], TokenSqn(s, a.data).value, requested); }
      if a.code == 1410 { PlanFrom(s, info[1..], sqn, Capped(ParseInt(a.data, 16).value)); }
    } else {
      assert ReadablePart(s, info) == [];
      assert LastWith([], 1411).None? && LastWith([], 1410).None?;
    }
  }

  lemma LastIsReadable(s: Subscription, info: seq<AvpRecord>)
    requires forall a :: a in info ==> Readable(s, a)
    ensures LastWith(info, 1411).Some? ==> TokenSqn(s, LastWith(info, 1411).value.data).Some?
    ensures LastWith(info, 1410).Some? ==> ParseInt(LastWith(info, 1410).value.data, 16).Some?
  {
    hide TokenSqn, ParseInt;
  }

  /** What the scan computes, for every request: it raises exactly if some token or count
      cannot be read; the last token read decides the stored value and the last count read
      the number of vectors. */
  lemma PlanMeaning(s: Subscription, info: seq<AvpRecord>, stored: nat)
    ensures var plan := PlanAir(s, info, stored, 1);
      var read := ReadablePart(s, info);
      && (plan.raised <==> exists a :: a in info && !Readable(s, a))
      && plan.sqn == StoredAfter(s, read, stored)
      && plan.requested == CountAfter(read, 1) <= 32
      && (LastWith(read, 1410).None? ==> plan.requested == 1)
      && (forall c: AvpRecord, n: int :: LastWith(read, 1410) == Some(c) && ParseInt(c.data, 16) == Some(n) ==>
            plan.requested == if n < 32 then n else 32)
  {
    hide PlanAir, Readable, StoredAfter, ParseInt, LastWith;
    PlanFrom(s, info, stored, 1);
  }

  /** When a token can be read: it is hex text and either RAND and at least the first six
      bytes of AUTS are there, or nothing is. */
  lemma TokenReads(s: Subscription, data: string)
    requires s.Valid()
    ensures TokenSqn(s, data).Some? <==> AllDigits(data, 16) && (data == "" || (|data| >= 44 && |data| % 2 == 0))
  {
    hide GenerateResync, Unhexlify, AllDigits;
    var front, back := Slice(data, 0, 32), Drop(data, 32);
    assert |front| == if |data| < 32 then |data| else 32;
    assert |back| == |data| - |front|;
    assert data == front + back;
    DigitsConcat(front, back);
    var rand, auts := Unhexlify(front), Unhexlify(back);
    if rand.Some? && auts.Some? { ResyncReads(s, auts.value, rand.value); }
  }

  lemma DigitsConcat(a: string, b: string)
    ensures AllDigits(a + b, 16) <==> AllDigits(a, 16) && AllDigits(b, 16)
  {
    hide IsDigit;
    if AllDigits(a + b, 16) {
      assert a == (a + b)[..|a|] && b == (a + b)[|a|..];
    }
  }

  /** An empty token does not raise: it puts the stored value back to 100. */
  lemma EmptyTokenResets(s: Subscription, a: AvpRecord, stored: nat)
    requires s.Valid() && a.code == 1411 && a.data == ""
    ensures PlanAir(s, [a], stored, 1) == Plan(100, 1, false)
  {
    hide TokenSqn;
    EmptyToken(s);
    assert [a][1..] == [];
  }

  lemma EmptyToken(s: Subscription)
    requires s.Valid()
    ensures TokenSqn(s, "") == Some(100)
  {
    hide GenerateResync, Slice, Drop, Unhexlify;
    EmptyText();
    ResyncReads(s, [], []);
  }

  lemma EmptyText()
    ensures Slice("", 0, 32) == "" && Drop("", 32) == "" && Unhexlify("") == Some([])
  {
  }

  /** The answer to a request, for every list of AVPs and stored value: vectors are sent exactly
      if AVP 1408 does not hold text, every token and count in it can be read, the count is not
      negative, and the last value fits; then they are as many as the last count says, at most
      32, numbered downwards, made from the value of the last token (or the stored one) upwards
      in steps of 100, and the stored value ends one step above the last of them. */
  lemma AirVectors(kdf: Kdf, s: Subscription, plmn: seq<Byte>, rnd: nat -> seq<Byte>, avps: seq<TopRecord>, stored: nat)
    ensures var plan := PlanRequest(s, avps, stored);
      var batch := IssueBatch(kdf, s, plmn, rnd, plan.sqn, plan.requested, 0);
      var info := if AuthInfo(avps).Some? then AuthInfo(avps).value else [];
      var n, first := CountAfter(info, 1), StoredAfter(s, info, stored);
      && (!plan.raised && !batch.raised <==>
            && AuthInfo(avps).Some? && (forall a :: a in info ==> Readable(s, a))
            && n >= 0 && (n > 0 ==> first + 100 * (n - 1) < Ceiling(first)))
      && (!plan.raised && !batch.raised ==>
            && |batch.items| == n <= 32 && batch.sqn == first + 100 * n
            && forall i :: 0 <= i < n ==>
                 && batch.items[i].number == n - i
                 && Some(batch.items[i].vector) == GenerateEutranVector(kdf, s, first + 100 * i, rnd(i), plmn))
  {
    hide PlanAir, IssueBatch, GenerateEutranVector, Readable, StoredAfter, CountAfter, Ceiling, AuthInfo, LastWith, ParseInt;
    var plan := PlanRequest(s, avps, stored);
    if AuthInfo(avps).Some? { PlanMeaning(s, AuthInfo(avps).value, stored); }
    BatchShape(kdf, s, plmn, rnd, plan.sqn, plan.requested, 0);
    var batch := IssueBatch(kdf, s, plmn, rnd, plan.sqn, plan.requested, 0);
    if !plan.raised && !batch.raised {
      forall i | 0 <= i < plan.requested
        ensures && batch.items[i].number == plan.requested - i
                && Some(batch.items[i].vector) == GenerateEutranVector(kdf, s, plan.sqn + 100 * i, rnd(i), plmn)
      {
        BatchItem(kdf, s, plmn, rnd, plan.sqn, plan.requested, 0, i);
      }
    }
  }

  /** A request that carries a failure token of the card, with any other AVPs around it: the
      stored value restarts one step above the card. */
  lemma ResyncPlan(s: Subscription, rand: seq<Byte>, own: nat, auts: seq<Byte>, stored: nat, info: seq<AvpRecord>, i: nat)
    requires s.Valid() && |rand| == BLOCK && own < SQN_LIMIT && GenerateAuts(s, rand, own) == Some(auts)
    requires i < |info| && info[i].code == 1411 && info[i].data == ResyncInfo(rand, auts)
    requires forall j :: i < j < |info| ==> info[j].code != 1411
    requires forall j :: 0 <= j < |info| && j != i ==> Readable(s, info[j])
    ensures PlanAir(s, info, stored, 1) == Plan(own + SQN_STEP, CountAfter(info, 1), false)
  {
    hide PlanAir, Readable, TokenSqn, ParseInt, GenerateAuts, ResyncInfo, CountAfter;
    TokenOfCard(s, rand, own, auts);
    TokenIsReadable(s, info[i]);
    LastAt(info, 1411, i);
    PlanMeaning(s, info, stored);
  }

  lemma TokenIsReadable(s: Subscription, a: AvpRecord)
    requires a.code == 1411 && TokenSqn(s, a.data).Some?
    ensures Readable(s, a)
  {
  }

  lemma TokenOfCard(s: Subscription, rand: seq<Byte>, own: nat, auts: seq<Byte>)
    requires s.Valid() && |rand| == BLOCK && own < SQN_LIMIT && GenerateAuts(s, rand, own) == Some(auts)
    ensures TokenSqn(s, ResyncInfo(rand, auts)) == Some(own + SQN_STEP)
  {
    hide Unhexlify, Slice, Drop, GenerateAuts, GenerateResync, ResyncInfo;
    ResyncInfoSplits(rand, auts);
    ResyncInvertsAuts(s, rand, own);
  }

  lemma {:induction false} LastAt(info: seq<AvpRecord>, code: int, i: nat)
    requires i < |info| && info[i].code == code && forall j :: i < j < |info| ==> info[j].code != code
    ensures LastWith(info, code) == Some(info[i])
  {
    if i < |info| - 1 { LastAt(info[..|info| - 1], code, i); }
  }
}
