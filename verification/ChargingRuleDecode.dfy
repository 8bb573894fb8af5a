/** What the peer reads out of a generated charging-rule AVP with the same parser. */
module ChargingRuleDecode {
  import opened PyText
  import opened Octets
  import opened AvpCodec
  import opened AvpForest
  import opened AvpText
  import opened AvpQuery
  import opened ChargingRule

  predicate Fits32(n: nat)
  {
    n < 0x1_0000_0000
  }

  /** The numbers of a rule fit the 32-bit columns and AVPs that hold them. */
  predicate RuleFits(r: Rule)
  {
    && Fits32(r.qci) && Fits32(r.arpPriority) && Fits32(r.mbrUl) && Fits32(r.mbrDl)
    && Fits32(r.gbrUl) && Fits32(r.gbrDl) && Fits32(r.precedence)
    && (r.ratingGroup.Some? ==> Fits32(r.ratingGroup.value))
  }

  predicate TftsFit(ts: seq<Tft>)
  {
    forall t :: t in ts ==> Fits32(t.direction)
  }

  /** A text whose bytes the parser would not take for an AVP. */
  predicate IsNoAvp(text: string)
  {
    !ValidateSingleAvp(StringToHex(text))
  }

  predicate TextsAreNoAvps(r: Rule, ts: seq<Tft>)
  {
    IsNoAvp(r.name) && forall t :: t in ts ==> IsNoAvp(t.text)
  }

  predicate IsPlain(text: string)
  {
    NoControls(text) && |Encode(text)| < TEXT_LIMIT
  }

  lemma PlainIsNoAvp(text: string)
    requires IsPlain(text)
    ensures IsNoAvp(text)
  {
    hide ValidateSingleAvp, Encode, StringToHex;
    TextIsNoAvp(text);
  }

  // ------------------------------------------------- the trees are in range

  /** In range, whatever the lengths come to. */
  predicate Fits(a: Avp)
  {
    FieldsFit(a) && IsKnownFlags(a.flags)
  }

  lemma NumberFits(code: nat, flags: string, n: nat)
    requires code < 0x1_0000_0000 && IsVendorFlags(flags) && Fits32(n)
    ensures Fits(Number(code, flags, n)) && Transparent(Number(code, flags, n))
  {
    hide ValidateSingleAvp, HexField;
    HexWidths();
    HexFieldReads(n, 8);
    ShortIsNoAvp(HexField(n, 8));
  }

  lemma TextFits(code: nat, text: string)
    requires code < 0x1_0000_0000
    ensures Fits(Text(code, text)) && (Transparent(Text(code, text)) <==> IsNoAvp(text))
  {
    hide ValidateSingleAvp, Encode, Hexlify;
  }

  lemma GroupFits(code: nat, flags: string, kids: seq<Avp>)
    requires code < 0x1_0000_0000 && IsVendorFlags(flags) && forall k :: k in kids ==> Fits(k)
    ensures Fits(Group(code, flags, Some(VENDOR_3GPP), kids))
    ensures Transparent(Group(code, flags, Some(VENDOR_3GPP), kids)) <==> forall k :: k in kids ==> Transparent(k)
  {
  }

  lemma TftTreeFits(t: Tft)
    requires Fits32(t.direction)
    ensures Fits(TftTree(t)) && (Transparent(TftTree(t)) <==> IsNoAvp(t.text))
  {
    hide Fits, Number, Text, Transparent, IsNoAvp;
    var direction, text := Number(1080, "80", t.direction), Text(507, t.text);
    NumberFits(1080, "80", t.direction);
    TextFits(507, t.text);
    GroupFits(1058, "80", [direction] + [text]);
    assert text in [direction] + [text];
  }

  lemma ArpFits(r: Rule)
    requires RuleFits(r)
    ensures Fits(ArpTree(r)) && Transparent(ArpTree(r))
  {
    hide Fits, Number, Transparent;
    NumberFits(1046, "80", r.arpPriority);
    NumberFits(1047, "80", Bit(!r.arpCapability));
    NumberFits(1048, "80", Bit(!r.arpVulnerability));
    GroupFits(1034, "80", ArpTree(r).kids);
  }

  lemma QosFits(r: Rule)
    requires RuleFits(r)
    ensures Fits(QosTree(r)) && Transparent(QosTree(r))
  {
    hide Fits, Number, Transparent, ArpTree;
    ArpFits(r);
    NumberFits(1028, "c0", r.qci);
    NumberFits(516, "c0", r.mbrUl);
    NumberFits(515, "c0", r.mbrDl);
    NumberFits(1026, "c0", r.gbrUl);
    NumberFits(1025, "c0", r.gbrDl);
    GroupFits(1016, "c0", QosTree(r).kids);
  }

  lemma RatingFits(r: Rule)
    requires RuleFits(r)
    ensures forall a :: a in RatingTrees(r) ==> Fits(a) && Transparent(a)
  {
    hide ValidateSingleAvp, HexField;
    if r.ratingGroup.Some? {
      HexWidths();
      HexFieldReads(r.ratingGroup.value, 8);
      ShortIsNoAvp(HexField(r.ratingGroup.value, 8));
    }
  }

  lemma TailFits(r: Rule)
    requires RuleFits(r)
    ensures forall k :: k in TailTrees(r) ==> Fits(k) && Transparent(k)
  {
    hide Fits, Number, QosTree, RatingTrees, Transparent;
    NumberFits(511, "c0", 2);
    NumberFits(1010, "c0", r.precedence);
    QosFits(r);
    RatingFits(r);
  }

  lemma FlowsFit(ts: seq<Tft>)
    requires TftsFit(ts)
    ensures forall k :: k in TftTrees(ts) ==> Fits(k)
    ensures (forall k :: k in TftTrees(ts) ==> Transparent(k)) <==> (forall t :: t in ts ==> IsNoAvp(t.text))
  {
    hide Fits, Transparent, IsNoAvp, TftTree;
    forall i | 0 <= i < |ts|
      ensures Fits(TftTrees(ts)[i]) && (Transparent(TftTrees(ts)[i]) <==> IsNoAvp(ts[i].text))
    {
      TftTreeFits(ts[i]);
    }
    if forall k :: k in TftTrees(ts) ==> Transparent(k) {
      forall t | t in ts ensures IsNoAvp(t.text) {
        var i :| 0 <= i < |ts| && ts[i] == t;
        assert TftTrees(ts)[i] in TftTrees(ts);
      }
    }
  }

  /** The install AVP is in range, and a leaf of it passes for a group exactly if a text does. */
  lemma InstallFits(r: Rule, ts: seq<Tft>)
    requires RuleFits(r) && TftsFit(ts)
    ensures FieldsFit(InstallTree(r, ts)) && (Transparent(InstallTree(r, ts)) <==> TextsAreNoAvps(r, ts))
  {
    hide FieldsFit, Text, TailTrees, TftTrees, Transparent, IsNoAvp, RuleFits, TftsFit;
    var name, flows, tail := Text(1005, r.name), TftTrees(ts), TailTrees(r);
    TextFits(1005, r.name);
    FlowsFit(ts);
    TailFits(r);
    var kids := [name] + (flows + tail);
    forall k | k in kids ensures k == name || k in flows || k in tail { }
    GroupFits(1003, "c0", kids);
    assert name in kids;
    assert forall k :: k in flows ==> k in kids;
    GroupFits(1001, "c0", [DefinitionTree(r, ts)]);
    assert DefinitionTree(r, ts) in InstallTree(r, ts).kids;
  }

  // -------------------------------------------------- the order of the parser

  function HeadList(r: Rule): seq<Avp>
  {
    [Number(511, "c0", 2)] + ([QosTree(r)] + ([Number(1010, "c0", r.precedence)] + RatingTrees(r)))
  }

  function BandwidthList(r: Rule): seq<Avp>
  {
    [Number(516, "c0", r.mbrUl)] + [Number(515, "c0", r.mbrDl)] + GbrTrees(r)
  }

  /** The tail of a rule definition as the parser lists it: siblings first, then what is
      inside the QoS information, then what is inside the ARP. */
  function TailList(r: Rule): seq<Avp>
  {
    HeadList(r) + ([Number(1028, "c0", r.qci)] + ([ArpTree(r)] + (BandwidthList(r) + ArpTree(r).kids)))
  }

  lemma QosFlat(r: Rule)
    ensures Flat(QosTree(r).kids) == [Number(1028, "c0", r.qci)] + ([ArpTree(r)] + (BandwidthList(r) + ArpTree(r).kids))
  {
    hide Flat, IntToHex;
    var qci, arp, bandwidth := Number(1028, "c0", r.qci), ArpTree(r), BandwidthList(r);
    Assoc([qci], [arp], bandwidth);
    FlatOfLeaves(bandwidth);
    FlatOfLeaves(arp.kids);
    FlatOfCons(arp, bandwidth);
    FlatOfCons(qci, [arp] + bandwidth);
    FlatEmpty();
    assert ([arp] + (bandwidth + arp.kids)) + [] == [arp] + (bandwidth + arp.kids);
  }

  lemma TailFlat(r: Rule)
    ensures Flat(TailTrees(r)) == TailList(r)
  {
    hide Flat, IntToHex, ArpTree, BandwidthList;
    var status, qos, prec, rating := Number(511, "c0", 2), QosTree(r), Number(1010, "c0", r.precedence), RatingTrees(r);
    var inside := Flat(qos.kids);
    QosFlat(r);
    FlatOfLeaves([prec] + rating);
    FlatOfCons(qos, [prec] + rating);
    FlatOfCons(status, [qos] + ([prec] + rating));
    FlatEmpty();
    assert TailTrees(r) == [status] + ([qos] + ([prec] + rating));
    assert Flat(TailTrees(r)) == [status] + (([qos] + (([prec] + rating) + inside)) + []);
    assert HeadList(r) + inside == [status] + ([qos] + (([prec] + rating) + inside));
  }

  /** The leaves of the templates, last template first. */
  function FlowLeaves(ts: seq<Tft>): seq<Avp>
  {
    if ts == [] then [] else FlowLeaves(ts[1..]) + ([Number(1080, "80", ts[0].direction)] + [Text(507, ts[0].text)])
  }

  lemma TftFlat(t: Tft)
    ensures Flat(Kids(TftTree(t))) == [Number(1080, "80", t.direction)] + [Text(507, t.text)]
  {
    hide Flat, IntToHex, StringToHex;
    FlatOfLeaves(TftTree(t).kids);
  }

  lemma Regroup(a: seq<Avp>, b: seq<Avp>, c: seq<Avp>, d: seq<Avp>)
    ensures (a + (b + c)) + d == a + (b + (c + d))
  {
    Assoc(a, b + c, d);
    Assoc(b, c, d);
  }

  lemma {:induction false} FlowsFlat(ts: seq<Tft>, tail: seq<Avp>)
    ensures Flat(TftTrees(ts) + tail) == TftTrees(ts) + (Flat(tail) + FlowLeaves(ts))
  {
    hide Flat, TftTree, Number, Text, Kids;
    if ts == [] {
      assert TftTrees(ts) + tail == tail;
      assert TftTrees(ts) + (Flat(tail) + []) == Flat(tail);
    } else {
      var t, rest := TftTree(ts[0]), TftTrees(ts[1..]);
      assert TftTrees(ts) == [t] + rest;
      Assoc([t], rest, tail);
      FlatOfCons(t, rest + tail);
      TftFlat(ts[0]);
      FlowsFlat(ts[1..], tail);
      Regroup(rest, Flat(tail), FlowLeaves(ts[1..]), Flat(Kids(t)));
      Assoc([t], rest, Flat(tail) + FlowLeaves(ts));
    }
  }

  /** All descendants of an install AVP in the order of the parser. */
  function InstallList(r: Rule, ts: seq<Tft>): seq<Avp>
  {
    [DefinitionTree(r, ts)] + ([Text(1005, r.name)] + (TftTrees(ts) + (TailList(r) + FlowLeaves(ts))))
  }

  lemma InstallFlat(r: Rule, ts: seq<Tft>)
    ensures Flat(InstallTree(r, ts).kids) == InstallList(r, ts)
  {
    hide Flat, TailTrees, TailList, TftTrees, StringToHex, FlowLeaves;
    var definition, name := DefinitionTree(r, ts), Text(1005, r.name);
    TailFlat(r);
    FlowsFlat(ts, TailTrees(r));
    FlatOfCons(name, TftTrees(ts) + TailTrees(r));
    FlatEmpty();
    FlatOfCons(definition, []);
    assert [definition] + [] == [definition];
    var below := TftTrees(ts) + (TailList(r) + FlowLeaves(ts));
    assert [name] + (below + []) == [name] + below;
    assert [] + ([name] + below) == [name] + below;
  }

  lemma {:induction false} FlowLeavesSize(ts: seq<Tft>)
    ensures |FlowLeaves(ts)| == 2 * |ts|
  {
    if ts != [] { FlowLeavesSize(ts[1..]); }
  }

  /** A rating group and guaranteed rates that are not zero are sent. */
  function OptionalAvps(r: Rule): nat
  {
    Bit(r.ratingGroup.Some?) + Bit(r.gbrUl != 0) + Bit(r.gbrDl != 0)
  }

  /** The number of AVPs in an install AVP, itself included. */
  lemma InstallSize(r: Rule, ts: seq<Tft>)
    ensures |Flat([InstallTree(r, ts)])| == 13 + OptionalAvps(r) + 3 * |ts|
  {
    hide Flat, TftTree, FlowLeaves, Text, Number, QosTree;
    var tree := InstallTree(r, ts);
    InstallFlat(r, ts);
    FlowLeavesSize(ts);
    FlatOfCons(tree, []);
    FlatEmpty();
    assert [tree] + [] == [tree];
  }

  // ------------------------------------------------------- the rule, code by code

  function Numeral(n: nat): seq<Entry>
  {
    [Data(IntToHex(n, 4))]
  }

  /** The rule's parameters by AVP code; a rate of zero and a missing rating group are not sent. */
  function Parameter(r: Rule, code: int): seq<Entry>
  {
    match code
    case 511 => Numeral(2)
    case 1010 => Numeral(r.precedence)
    case 432 => if r.ratingGroup.Some? then Numeral(r.ratingGroup.value) else []
    case 1028 => Numeral(r.qci)
    case 516 => Numeral(r.mbrUl)
    case 515 => Numeral(r.mbrDl)
    case 1026 => if r.gbrUl != 0 then Numeral(r.gbrUl) else []
    case 1025 => if r.gbrDl != 0 then Numeral(r.gbrDl) else []
    case 1046 => Numeral(r.arpPriority)
    case 1047 => [Data(if r.arpCapability then "00000000" else "00000001")]
    case 1048 => [Data(if r.arpVulnerability then "00000000" else "00000001")]
    case _ => []
  }

  predicate IsGroupCode(code: int)
  {
    code == 1001 || code == 1003 || code == 1058 || code == 1016 || code == 1034
  }

  lemma HeadPayloads(r: Rule, code: int)
    requires !IsGroupCode(code)
    ensures Payloads(HeadList(r), code) == if code == 511 || code == 1010 || code == 432 then Parameter(r, code) else []
  {
    hide Payloads, IntToHex;
    var prec, rating := Number(1010, "c0", r.precedence), RatingTrees(r);
    PayloadsCons(Number(511, "c0", 2), [QosTree(r)] + ([prec] + rating), code);
    PayloadsCons(QosTree(r), [prec] + rating, code);
    PayloadsCons(prec, rating, code);
    NoPayload(code);
    if r.ratingGroup.Some? {
      PayloadsSingle(rating[0], code);
      RatingText(r.ratingGroup.value);
    }
  }

  lemma RatingText(n: nat)
    ensures HexField(n, 8) == IntToHex(n, 4)
  {
  }

  lemma BandwidthPayloads(r: Rule, code: int)
    ensures Payloads(BandwidthList(r), code)
      == if code == 516 || code == 515 || code == 1026 || code == 1025 then Parameter(r, code) else []
  {
    hide Payloads, IntToHex;
    var ul, dl, gbr := Number(516, "c0", r.mbrUl), Number(515, "c0", r.mbrDl), GbrTrees(r);
    Assoc([ul], [dl], gbr);
    PayloadsCons(ul, [dl] + gbr, code);
    PayloadsCons(dl, gbr, code);
    var a, b := if r.gbrUl != 0 then [Number(1026, "c0", r.gbrUl)] else [], if r.gbrDl != 0 then [Number(1025, "c0", r.gbrDl)] else [];
    PayloadsConcat(a, b, code);
    NoPayload(code);
    PayloadsSingle(Number(1026, "c0", r.gbrUl), code);
    PayloadsSingle(Number(1025, "c0", r.gbrDl), code);
  }

  lemma FlagTexts()
    ensures IntToHex(0, 4) == "00000000" && IntToHex(1, 4) == "00000001"
  {
    assert Digits(0, 16) == "0" && Digits(1, 16) == "1";
  }

  lemma ArpPayloads(r: Rule, code: int)
    ensures Payloads(ArpTree(r).kids, code) == if code == 1046 || code == 1047 || code == 1048 then Parameter(r, code) else []
  {
    hide Payloads, IntToHex;
    var a, b, c := Number(1046, "80", r.arpPriority), Number(1047, "80", Bit(!r.arpCapability)), Number(1048, "80", Bit(!r.arpVulnerability));
    PayloadsConcat([a] + [b], [c], code);
    PayloadsConcat([a], [b], code);
    PayloadsSingle(a, code);
    PayloadsSingle(b, code);
    PayloadsSingle(c, code);
    FlagTexts();
  }

  lemma TailPayloads(r: Rule, code: int)
    requires !IsGroupCode(code)
    ensures Payloads(TailList(r), code) == Parameter(r, code)
  {
    hide Payloads, IntToHex, HeadList, BandwidthList;
    var qci, arp, bandwidth := Number(1028, "c0", r.qci), ArpTree(r), BandwidthList(r);
    PayloadsConcat(HeadList(r), [qci] + ([arp] + (bandwidth + arp.kids)), code);
    PayloadsCons(qci, [arp] + (bandwidth + arp.kids), code);
    PayloadsCons(arp, bandwidth + arp.kids, code);
    PayloadsConcat(bandwidth, arp.kids, code);
    HeadPayloads(r, code);
    BandwidthPayloads(r, code);
    ArpPayloads(r, code);
  }

  lemma {:induction false} TftTreePayloads(ts: seq<Tft>, code: int)
    requires !IsGroupCode(code)
    ensures Payloads(TftTrees(ts), code) == []
  {
    if ts != [] {
      TftTreePayloads(ts[1..], code);
      assert TftTrees(ts)[1..] == TftTrees(ts[1..]);
    }
  }

  /** What a code finds in the templates, last template first. */
  function TemplateEntries(ts: seq<Tft>, code: int): seq<Entry>
  {
    if ts == [] then []
    else
      var own := if code == 1080 then Numeral(ts[0].direction) else if code == 507 then [Data(StringToHex(ts[0].text))] else [];
      TemplateEntries(ts[1..], code) + own
  }

  lemma {:induction false} FlowPayloads(ts: seq<Tft>, code: int)
    ensures Payloads(FlowLeaves(ts), code) == TemplateEntries(ts, code)
  {
    hide Payloads, IntToHex, StringToHex;
    NoPayload(code);
    if ts != [] {
      var a, b := Number(1080, "80", ts[0].direction), Text(507, ts[0].text);
      FlowPayloads(ts[1..], code);
      PayloadsConcat(FlowLeaves(ts[1..]), [a] + [b], code);
      PayloadsConcat([a], [b], code);
      PayloadsSingle(a, code);
      PayloadsSingle(b, code);
    }
  }

  /** Everything a lookup can find in an installed rule, for every code of a leaf. */
  function RuleEntries(r: Rule, ts: seq<Tft>, code: int): seq<Entry>
  {
    (if code == 1005 then [Data(StringToHex(r.name))] else []) + (Parameter(r, code) + TemplateEntries(ts, code))
  }

  lemma InstallPayloads(r: Rule, ts: seq<Tft>, code: int)
    requires !IsGroupCode(code)
    ensures Payloads(InstallList(r, ts), code) == RuleEntries(r, ts, code)
  {
    hide Payloads, Parameter, TailList, TftTrees, FlowLeaves, TemplateEntries, StringToHex;
    var definition, name := DefinitionTree(r, ts), Text(1005, r.name);
    var below := TailList(r) + FlowLeaves(ts);
    PayloadsCons(definition, [name] + (TftTrees(ts) + below), code);
    PayloadsCons(name, TftTrees(ts) + below, code);
    PayloadsConcat(TftTrees(ts), below, code);
    PayloadsConcat(TailList(r), FlowLeaves(ts), code);
    TftTreePayloads(ts, code);
    TailPayloads(r, code);
    FlowPayloads(ts, code);
  }

  // ------------------------------------------------------------- main result

  /** The exact condition for an install AVP to parse completely: it fits its length field,
      holds at most 100 AVPs, and none of its texts passes for an AVP. */
  predicate Installable(r: Rule, ts: seq<Tft>)
  {
    && ByteLength(InstallTree(r, ts)) < 0x100_0000
    && 13 + OptionalAvps(r) + 3 * |ts| <= FAILSAFE
    && TextsAreNoAvps(r, ts)
  }

  lemma InstallGood(r: Rule, ts: seq<Tft>)
    requires RuleFits(r) && TftsFit(ts)
    ensures !EndsBare([InstallTree(r, ts)])
    ensures GoodForest([InstallTree(r, ts)]) <==> ByteLength(InstallTree(r, ts)) < 0x100_0000 && TextsAreNoAvps(r, ts)
  {
    hide FieldsFit, WellFormed, Transparent, ByteLength, TextsAreNoAvps, RuleFits, TftsFit, DefinitionTree;
    var tree := InstallTree(r, ts);
    InstallFits(r, ts);
    LengthSuffices(tree);
    assert tree in [tree];
  }

  /** What an installed rule reads back as: every leaf code finds exactly the rule's own
      values, each parameter once, the rates only if they are not zero, and the texts and
      directions of the templates once each, last template first. */
  lemma InstalledRuleReadsBack(r: Rule, ts: seq<Tft>, code: int)
    requires RuleFits(r) && TftsFit(ts)
    ensures Decode(EncodeAvp(InstallTree(r, ts))) == TopRecords([InstallTree(r, ts)]) <==> Installable(r, ts)
    ensures Installable(r, ts) && !IsGroupCode(code) ==>
      Select(Decode(EncodeAvp(InstallTree(r, ts))), code) == RuleEntries(r, ts, code)
  {
    hide Decode, EncodeAvp, EncodeForest, TopRecords, Select, Flat, Visit, GoodForest, RuleFits, TftsFit, TextsAreNoAvps;
    hide RuleEntries, InstallList, WithCode, ByteLength, DefinitionTree, Payloads, OptionalAvps, EndsBare;
    var tree := InstallTree(r, ts);
    InstallGood(r, ts);
    InstallSize(r, ts);
    EncodeSingle(tree);
    RoundTripIff([tree]);
    if Installable(r, ts) && !IsGroupCode(code) {
      LookupAfterRoundTrip([tree], code);
      NestedLookup([tree], code);
      assert NestedAvps([tree]) == Flat(tree.kids) by { NestedAvpsOne(tree); }
      InstallFlat(r, ts);
      InstallPayloads(r, ts, code);
    }
  }

  // ------------------------------------------------------- flags and vendors

  /** Flags and vendor id of every AVP in an install AVP, by code. */
  predicate HeaderByCode(a: Avp)
  {
    if a.code == 432 then a.flags == "40" && a.vendor == None
    else
      && a.vendor == Some(10415)
      && a.flags == (if a.code == 1058 || a.code == 1080 || a.code == 1034 || a.code == 1046 || a.code == 1047 || a.code == 1048
                     then "80" else "c0")
  }

  predicate HeadersByCode(f: seq<Avp>)
  {
    forall a :: a in f ==> HeaderByCode(a)
  }

  lemma HeadersConcat(f: seq<Avp>, g: seq<Avp>)
    requires HeadersByCode(f) && HeadersByCode(g)
    ensures HeadersByCode(f + g)
  {
    hide HeaderByCode;
  }

  lemma {:induction false} FlowHeaders(ts: seq<Tft>)
    ensures HeadersByCode(FlowLeaves(ts)) && HeadersByCode(TftTrees(ts))
  {
    hide IntToHex, StringToHex;
    if ts != [] {
      FlowHeaders(ts[1..]);
      var own := [Number(1080, "80", ts[0].direction)] + [Text(507, ts[0].text)];
      HeadersConcat(FlowLeaves(ts[1..]), own);
    }
  }

  lemma TailHeaders(r: Rule)
    ensures HeadersByCode(TailList(r))
  {
    hide HeadersByCode;
    var inside := [Number(1028, "c0", r.qci)] + ([ArpTree(r)] + (BandwidthList(r) + ArpTree(r).kids));
    HeadHeaders(r);
    QosHeaders(r);
    HeadersConcat(HeadList(r), inside);
  }

  lemma HeadHeaders(r: Rule)
    ensures HeadersByCode(HeadList(r))
  {
    hide IntToHex;
  }

  lemma QosHeaders(r: Rule)
    ensures HeadersByCode([Number(1028, "c0", r.qci)] + ([ArpTree(r)] + (BandwidthList(r) + ArpTree(r).kids)))
  {
    hide IntToHex;
    assert HeadersByCode(BandwidthList(r)) && HeadersByCode(ArpTree(r).kids);
    HeadersConcat(BandwidthList(r), ArpTree(r).kids);
  }

  /** Every AVP of an install AVP carries the flags and the vendor id of its code, and the
      whole is an AVP 1001. */
  lemma InstallHeaders(r: Rule, ts: seq<Tft>)
    ensures InstallTree(r, ts).code == 1001
    ensures forall a :: a in Flat([InstallTree(r, ts)]) ==> HeaderByCode(a)
  {
    hide Flat, TailList, FlowLeaves, TftTrees, HeadersByCode, StringToHex, InstallList;
    var tree, definition, name := InstallTree(r, ts), DefinitionTree(r, ts), Text(1005, r.name);
    InstallFlat(r, ts);
    FlatOfCons(tree, []);
    FlatEmpty();
    assert [tree] + [] == [tree];
    FlowHeaders(ts);
    TailHeaders(r);
    HeadersConcat(TailList(r), FlowLeaves(ts));
    HeadersConcat(TftTrees(ts), TailList(r) + FlowLeaves(ts));
    OneHeader(name);
    OneHeader(definition);
    OneHeader(tree);
    HeadersConcat([name], TftTrees(ts) + (TailList(r) + FlowLeaves(ts)));
    HeadersConcat([definition], [name] + (TftTrees(ts) + (TailList(r) + FlowLeaves(ts))));
    ListShape(r, ts);
    HeadersConcat([tree], [] + InstallList(r, ts));
    HeadersAll(Flat([tree]));
  }

  lemma ListShape(r: Rule, ts: seq<Tft>)
    ensures InstallList(r, ts) == [DefinitionTree(r, ts)] + ([Text(1005, r.name)] + (TftTrees(ts) + (TailList(r) + FlowLeaves(ts))))
    ensures [] + InstallList(r, ts) == InstallList(r, ts)
  {
  }

  lemma OneHeader(a: Avp)
    requires HeaderByCode(a)
    ensures HeadersByCode([a])
  {
  }

  lemma HeadersAll(f: seq<Avp>)
    requires HeadersByCode(f)
    ensures forall a :: a in f ==> HeaderByCode(a)
  {
  }

  // ---------------------------------------------------------- removing a rule

  /** The remove AVP parses completely exactly if it fits its length field and the name does
      not pass for an AVP; then it is an AVP 1002 in which 1005 finds exactly the name. */
  lemma RemovedRuleReadsBack(name: string)
    ensures var tree := RemoveTree(name);
      var avps := Decode(EncodeAvp(tree));
      && (avps == TopRecords([tree]) <==> ByteLength(tree) < 0x100_0000 && IsNoAvp(name))
      && (ByteLength(tree) < 0x100_0000 && IsNoAvp(name) ==>
            && |avps| == 1 && avps[0].avp == AvpRecord(1002, "c0", ByteLength(tree), Some(10415), "")
            && Select(avps, 1005) == [Data(StringToHex(name))])
  {
    hide Decode, EncodeAvp, EncodeForest, TopRecords, Select, Flat, Visit, GoodForest, WithCode, Payloads, IsNoAvp, ByteLength;
    var tree := RemoveTree(name);
    RemoveGood(name);
    EncodeSingle(tree);
    RoundTripIff([tree]);
    RemoveFlat(name);
    if ByteLength(tree) < 0x100_0000 && IsNoAvp(name) {
      LookupAfterRoundTrip([tree], 1005);
      NestedLookup([tree], 1005);
      NestedAvpsOne(tree);
      PayloadsSingle(Text(1005, name), 1005);
      TopRecordsCount([tree]);
      TopRecordsAt([tree], 0);
    }
  }

  lemma RemoveFlat(name: string)
    ensures Flat(Kids(RemoveTree(name))) == [Text(1005, name)] && |Flat([RemoveTree(name)])| == 2
  {
    hide Flat;
    var tree := RemoveTree(name);
    FlatOfLeaves(tree.kids);
    FlatEmpty();
    FlatOfCons(tree, []);
    assert [tree] + [] == [tree];
  }

  lemma RemoveGood(name: string)
    ensures !EndsBare([RemoveTree(name)])
    ensures GoodForest([RemoveTree(name)]) <==> ByteLength(RemoveTree(name)) < 0x100_0000 && IsNoAvp(name)
  {
    hide FieldsFit, WellFormed, Transparent, ByteLength, IsNoAvp, Text, Fits;
    var tree, text := RemoveTree(name), Text(1005, name);
    TextFits(1005, name);
    GroupFits(1002, "c0", [text]);
    assert text in [text];
    FitsFields(tree);
    LengthSuffices(tree);
    assert tree in [tree];
  }

  lemma FitsFields(a: Avp)
    requires Fits(a)
    ensures FieldsFit(a)
  {
  }

  // --------------------------------------------------------- rules too long

  /** The bytes of all template texts. */
  function TextBytes(ts: seq<Tft>): nat
  {
    if ts == [] then 0 else |Encode(ts[0].text)| + TextBytes(ts[1..])
  }

  lemma TftTreeLonger(t: Tft)
    ensures |EncodeAvp(TftTree(t))| >= 2 * |Encode(t.text)|
  {
    hide Content, Encode, GenerateVendorAvp;
    var a, b := Number(1080, "80", t.direction), Text(507, t.text);
    EncodedCoversContent(b);
    EncodedCoversContent(TftTree(t));
    EncodedCoversMember([a] + [b], b);
    assert Content(TftTree(t)) == EncodeForest([a] + [b]) by { ContentOfGroup(TftTree(t)); }
    assert Content(b) == StringToHex(t.text) by { ContentOfLeaf(b); }
  }

  lemma {:induction false} FlowsLonger(ts: seq<Tft>)
    ensures |EncodeForest(TftTrees(ts))| >= 2 * TextBytes(ts)
  {
    hide EncodeAvp, Encode, TftTree;
    if ts != [] {
      FlowsLonger(ts[1..]);
      TftTreeLonger(ts[0]);
      assert TftTrees(ts)[1..] == TftTrees(ts[1..]);
    }
  }

  lemma InstallLonger(r: Rule, ts: seq<Tft>)
    ensures ByteLength(InstallTree(r, ts)) >= TextBytes(ts)
  {
    hide Content, EncodeForest, EncodeAvp, TextBytes, Text, TailTrees, TftTrees;
    var tree, definition := InstallTree(r, ts), DefinitionTree(r, ts);
    ContentOfGroup(tree);
    ContentOfGroup(definition);
    EncodeSingle(definition);
    EncodedCoversContent(definition);
    EncodeConcat([Text(1005, r.name)], TftTrees(ts) + TailTrees(r));
    EncodeConcat(TftTrees(ts), TailTrees(r));
    FlowsLonger(ts);
  }

  /** Templates of 2^24 bytes in all are never read back. */
  lemma OverlongRuleIsMisread(r: Rule, ts: seq<Tft>)
    requires TextBytes(ts) >= 0x100_0000
    ensures Decode(EncodeAvp(InstallTree(r, ts))) != TopRecords([InstallTree(r, ts)])
  {
    hide Decode, EncodeAvp, EncodeForest, TopRecords, TextBytes, ByteLength, DefinitionTree;
    InstallLonger(r, ts);
    EncodeSingle(InstallTree(r, ts));
    OverlongIsMisread(InstallTree(r, ts));
  }

  lemma {:induction false} EncodeCovers(text: string)
    ensures |Encode(text)| >= |text|
  {
    if text != [] { EncodeCovers(text[1..]); }
  }

  lemma {:induction false} LettersEncode(text: string)
    requires forall i :: 0 <= i < |text| ==> text[i] == 'a'
    ensures |Encode(text)| == |text|
  {
    if text != [] {
      LettersEncode(text[1..]);
    }
  }

  lemma {:induction false} TextBytesCover(ts: seq<Tft>, n: nat)
    requires forall t :: t in ts ==> |t.text| >= n
    ensures TextBytes(ts) >= |ts| * n
  {
    hide Encode;
    if ts != [] {
      EncodeCovers(ts[0].text);
      TextBytesCover(ts[1..], n);
      assert |ts| * n == n + (|ts| - 1) * n;
    }
  }

  /** There are such rules within the limit on the number of AVPs: nine templates of two
      million letters each. */
  lemma NineLongTemplates(r: Rule)
    ensures var ts := seq(9, _ => Tft(seq(2_000_000, _ => 'a'), 1));
      && TftsFit(ts) && (forall t :: t in ts ==> IsPlain(t.text)) && 13 + OptionalAvps(r) + 3 * |ts| <= FAILSAFE
      && Decode(EncodeAvp(InstallTree(r, ts))) != TopRecords([InstallTree(r, ts)])
  {
    hide Decode, EncodeAvp, TopRecords, InstallTree, TextBytes;
    var ts := seq(9, _ => Tft(seq(2_000_000, _ => 'a'), 1));
    LettersEncode(ts[0].text);
    TextBytesCover(ts, 2_000_000);
    OverlongRuleIsMisread(r, ts);
  }

  // -------------------------------------------------- splicing keeps text plain

  lemma PlainConcat(a: string, b: string, c: string)
    requires NoControls(a) && NoControls(b) && NoControls(c)
    ensures NoControls(a + b + c)
  {
  }

  lemma {:induction false} ReplaceKeepsPlain(s: string, old_: string, new_: string)
    requires old_ != "" && NoControls(s) && NoControls(new_)
    ensures NoControls(Replace(s, old_, new_))
    decreases |s|
  {
    var i := Find(s, old_, 0);
    if i.Some? {
      var rest := s[i.value + |old_|..];
      ReplaceKeepsPlain(rest, old_, new_);
      PlainConcat(s[..i.value], new_, Replace(rest, old_, new_));
    }
  }

  lemma SplicedIsPlain(t: Tft, ueIp: string)
    requires NoControls(t.text) && NoControls(ueIp)
    ensures NoControls(Spliced(t, ueIp).text)
  {
    hide Replace;
    ReplaceKeepsPlain(t.text, "{{ UE_IP }}", ueIp);
    ReplaceKeepsPlain(Replace(t.text, "{{ UE_IP }}", ueIp), "{{UE_IP}}", ueIp);
  }

  lemma {:induction false} SplicedAreNoAvps(ts: seq<Tft>, ueIp: string)
    requires NoControls(ueIp) && forall t :: t in ts ==> NoControls(t.text)
    requires forall t :: t in SplicedAll(ts, ueIp) ==> |Encode(t.text)| < TEXT_LIMIT
    ensures forall t :: t in SplicedAll(ts, ueIp) ==> IsNoAvp(t.text)
  {
    hide Encode, NoControls, IsNoAvp, Spliced;
    var sent := SplicedAll(ts, ueIp);
    forall i | 0 <= i < |ts| ensures IsNoAvp(sent[i].text) {
      assert ts[i] in ts && sent[i] in sent;
      SplicedIsPlain(ts[i], ueIp);
      PlainIsNoAvp(sent[i].text);
    }
  }

  /** What the peer finds in the AVP that the generator returns for the caller's templates and
      the address of the UE; plain texts are no obstacle. */
  lemma GeneratedRuleReadsBack(r: Rule, ts: seq<Tft>, ueIp: string, code: int)
    requires RuleFits(r) && TftsFit(ts)
    ensures var sent := SplicedAll(ts, ueIp);
      var avps := Decode(EncodeAvp(InstallTree(r, sent)));
      && (avps == TopRecords([InstallTree(r, sent)]) <==> Installable(r, sent))
      && (Installable(r, sent) && !IsGroupCode(code) ==> Select(avps, code) == RuleEntries(r, sent, code))
    ensures IsPlain(r.name) && NoControls(ueIp)
      && (forall t :: t in ts ==> NoControls(t.text)) && (forall t :: t in SplicedAll(ts, ueIp) ==> |Encode(t.text)| < TEXT_LIMIT)
      ==> TextsAreNoAvps(r, SplicedAll(ts, ueIp))
  {
    hide Decode, EncodeAvp, InstallTree, RuleEntries, Select, Installable, Encode, NoControls, IsNoAvp, RuleFits, Spliced, TopRecords;
    var sent := SplicedAll(ts, ueIp);
    forall i | 0 <= i < |ts| ensures Fits32(sent[i].direction) {
      SplicedDirection(ts[i], ueIp);
      assert ts[i] in ts;
    }
    InstalledRuleReadsBack(r, sent, code);
    if IsPlain(r.name) && NoControls(ueIp)
       && (forall t :: t in ts ==> NoControls(t.text)) && (forall t :: t in sent ==> |Encode(t.text)| < TEXT_LIMIT)
    {
      PlainIsNoAvp(r.name);
      SplicedAreNoAvps(ts, ueIp);
    }
  }

  lemma SplicedDirection(t: Tft, ueIp: string)
    ensures Spliced(t, ueIp).direction == t.direction
  {
  }
}
