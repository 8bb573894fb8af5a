/** Authentication-Information requests as the peer prints them: what the handler makes of the
    AVPs of a request, from its text on. */
module AirRequest {
  import opened PyText
  import opened Octets
  import opened AvpCodec
  import opened AvpForest
  import opened AvpQuery
  import opened Milenage
  import opened AuthVectors
  import opened AuthCentre

  /** A request that survives printing and parsing. */
  predicate Received(f: seq<Avp>)
  {
    GoodForest(f) && |Flat(f)| <= 100 && !EndsBare(f)
  }

  lemma LookedUp(f: seq<Avp>, code: int)
    requires Received(f)
    ensures Select(Decode(EncodeForest(f)), code) == Entries(WithCode(Visit(f), code))
    ensures |Select(Decode(EncodeForest(f)), code)| == CountCode(f, code)
  {
    hide Decode, EncodeForest, Select, Entries, WithCode, Visit, CountCode, Flat, GoodForest, EndsBare;
    LookupAfterRoundTrip(f, code);
  }

  /** A request whose first AVP 1408, in the order of the parser, stands at top level: what is
      scanned are the AVPs inside it, in that order; a payload that is not empty raises. */
  lemma InfoOfRequest(f: seq<Avp>, i: nat)
    requires Received(f) && i < |f| && f[i].code == 1408 && CountCode(f[..i], 1408) == 0
    ensures var info := AuthInfo(Decode(EncodeForest(f)));
      if f[i].Leaf? && f[i].payload != "" then info.None? else info == Some(Records(Flat(Kids(f[i]))))
  {
    hide Received, Decode, EncodeForest, Select, WithCode, Visit, CountCode, Flat;
    LookedUp(f, 1408);
    FirstWithCode(f, i, 1408);
  }

  /** If the first AVP 1408 is itself inside another group, what is in it is not scanned. */
  lemma NestedInfoIsIgnored(f: seq<Avp>, v: Visited)
    requires Received(f) && WithCode(Visit(f), 1408) != [] && WithCode(Visit(f), 1408)[0] == v && !v.top
    ensures var info := AuthInfo(Decode(EncodeForest(f)));
      if v.avp.Leaf? && v.avp.payload != "" then info.None? else info == Some([])
  {
    hide Received, Decode, EncodeForest, Select, WithCode, Visit, Flat;
    LookedUp(f, 1408);
  }

  /** A request without an AVP 1408 asks for one vector from the stored value. */
  lemma RequestWithoutInfo(s: Subscription, f: seq<Avp>, stored: nat)
    requires Received(f) && CountCode(f, 1408) == 0
    ensures PlanRequest(s, Decode(EncodeForest(f)), stored) == Plan(stored, 1, false)
  {
    hide Received, Decode, EncodeForest, Select, WithCode, Visit, CountCode, Entries;
    LookedUp(f, 1408);
  }

  /** The plan for a request with a group 1408: the last token and the last count in the group,
      in the order of the parser, decide. */
  lemma RequestPlan(s: Subscription, f: seq<Avp>, i: nat, stored: nat)
    requires Received(f) && i < |f| && f[i].Group? && f[i].code == 1408 && CountCode(f[..i], 1408) == 0
    ensures var plan := PlanRequest(s, Decode(EncodeForest(f)), stored);
      var info := Records(Flat(f[i].kids));
      && (plan.raised <==> exists a :: a in info && !Readable(s, a))
      && (!plan.raised ==> plan.sqn == StoredAfter(s, info, stored) && plan.requested == CountAfter(info, 1))
  {
    hide Received, Decode, EncodeForest, CountCode, Flat, AuthInfo, PlanAir, Readable, StoredAfter, CountAfter, LastWith, ParseInt;
    InfoOfRequest(f, i);
    PlanMeaning(s, Records(Flat(f[i].kids)), stored);
  }

  /** A request for `n` vectors gets `n` of them, or 32. */
  lemma CountedRequest(s: Subscription, f: seq<Avp>, i: nat, stored: nat, flags: string, vendor: Option<nat>, n: nat)
    requires Received(f) && i < |f| && f[i].code == 1408 && CountCode(f[..i], 1408) == 0
    requires f[i].Group? && f[i].kids == [Leaf(1410, flags, vendor, HexField(n, 8))] && n < 0x1_0000_0000
    ensures PlanRequest(s, Decode(EncodeForest(f)), stored) == Plan(stored, if n < 32 then n else 32, false)
  {
    hide Received, Decode, EncodeForest, CountCode, Flat, AuthInfo, HexField, ParseInt, PlanAir, TokenSqn;
    var leaf := f[i].kids[0];
    FlatOfLeaves(f[i].kids);
    assert Records(f[i].kids) == [RecordOf(leaf)];
    HexWidths();
    HexFieldReads(n, 8);
    RequestPlan(s, f, i, stored);
    assert [RecordOf(leaf)][..0] == [];
    LastAt([RecordOf(leaf)], 1410, 0);
  }

  /** A request that carries a failure token of the card in its group 1408, as the last token in
      the order of the parser, restarts one step above the card. */
  lemma ResyncRequest(s: Subscription, f: seq<Avp>, i: nat, stored: nat, rand: seq<Byte>, own: nat, auts: seq<Byte>, k: nat)
    requires Received(f) && i < |f| && f[i].Group? && f[i].code == 1408 && CountCode(f[..i], 1408) == 0
    requires s.Valid() && |rand| == BLOCK && own < SQN_LIMIT && GenerateAuts(s, rand, own) == Some(auts)
    requires var inside := Flat(f[i].kids);
      && k < |inside| && inside[k].Leaf? && inside[k].code == 1411 && inside[k].payload == ResyncInfo(rand, auts)
      && (forall j :: k < j < |inside| ==> inside[j].code != 1411)
      && (forall j :: 0 <= j < |inside| && j != k ==> Readable(s, RecordOf(inside[j])))
    ensures PlanRequest(s, Decode(EncodeForest(f)), stored) == Plan(own + 100, CountAfter(Records(Flat(f[i].kids)), 1), false)
  {
    hide Received, Decode, EncodeForest, CountCode, Flat, AuthInfo, PlanAir, Readable, CountAfter, GenerateAuts, ResyncInfo;
    InfoOfRequest(f, i);
    ResyncPlan(s, rand, own, auts, stored, Records(Flat(f[i].kids)), k);
  }

  /** The vectors that a printed request gets: as many as its last count says, at most 32, from
      the value of its last token or the stored one upwards. */
  lemma RequestVectors(kdf: Kdf, s: Subscription, plmn: seq<Byte>, rnd: nat -> seq<Byte>, f: seq<Avp>, i: nat, stored: nat)
    requires Received(f) && i < |f| && f[i].Group? && f[i].code == 1408 && CountCode(f[..i], 1408) == 0
    ensures var info := Records(Flat(f[i].kids));
      var plan := PlanRequest(s, Decode(EncodeForest(f)), stored);
      var batch := IssueBatch(kdf, s, plmn, rnd, plan.sqn, plan.requested, 0);
      var n, first := CountAfter(info, 1), StoredAfter(s, info, stored);
      && (!plan.raised && !batch.raised <==>
            (forall a :: a in info ==> Readable(s, a)) && n >= 0 && (n > 0 ==> first + 100 * (n - 1) < Ceiling(first)))
      && (!plan.raised && !batch.raised ==>
            && |batch.items| == n <= 32 && batch.sqn == first + 100 * n
            && forall k :: 0 <= k < n ==>
                 && batch.items[k].number == n - k
                 && Some(batch.items[k].vector) == GenerateEutranVector(kdf, s, first + 100 * k, rnd(k), plmn))
  {
    hide Received, Decode, EncodeForest, CountCode, Flat, AuthInfo, PlanRequest, Readable, StoredAfter, CountAfter, IssueBatch;
    hide GenerateEutranVector, Ceiling;
    InfoOfRequest(f, i);
    AirVectors(kdf, s, plmn, rnd, Decode(EncodeForest(f)), stored);
  }
}
