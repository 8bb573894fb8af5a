/** `Charging_Rule_Generator`: the Gx AVP that installs or removes a charging rule. */
module ChargingRule {
  import opened PyText
  import opened AvpCodec
  import opened AvpForest
  import opened AvpText

  /** One traffic flow template row: `tft_string` and `direction`. */
  datatype Tft = Tft(text: string, direction: nat)

  datatype Rule = Rule(
    name: string, qci: nat,
    arpPriority: nat, arpCapability: bool, arpVulnerability: bool,
    mbrUl: nat, mbrDl: nat, gbrUl: nat, gbrDl: nat,
    precedence: nat, ratingGroup: Option<nat>)

  /** Splices the address of the UE into a template. */
  function Spliced(t: Tft, ueIp: string): Tft
  {
    t.(text := Replace(Replace(t.text, "{{ UE_IP }}", ueIp), "{{UE_IP}}", ueIp))
  }

  function SplicedAll(ts: seq<Tft>, ueIp: string): (r: seq<Tft>)
    ensures |r| == |ts| && forall i :: 0 <= i < |ts| ==> r[i] == Spliced(ts[i], ueIp)
  {
    seq(|ts|, i requires 0 <= i < |ts| => Spliced(ts[i], ueIp))
  }

  // ------------------------------------------------------- the rule as a tree

  function Number(code: nat, flags: string, n: nat): Avp
  {
    Leaf(code, flags, Some(VENDOR_3GPP), IntToHex(n, 4))
  }

  function Text(code: nat, text: string): Avp
  {
    Leaf(code, "c0", Some(VENDOR_3GPP), StringToHex(text))
  }

  function Bit(b: bool): nat
  {
    if b then 1 else 0
  }

  function TftTree(t: Tft): Avp
  {
    Group(1058, "80", Some(VENDOR_3GPP), [Number(1080, "80", t.direction)] + [Text(507, t.text)])
  }

  function TftTrees(ts: seq<Tft>): (r: seq<Avp>)
    ensures |r| == |ts| && forall i :: 0 <= i < |ts| ==> r[i] == TftTree(ts[i])
  {
    seq(|ts|, i requires 0 <= i < |ts| => TftTree(ts[i]))
  }

  function ArpTree(r: Rule): Avp
  {
    Group(1034, "80", Some(VENDOR_3GPP),
          [Number(1046, "80", r.arpPriority)] + [Number(1047, "80", Bit(!r.arpCapability))]
          + [Number(1048, "80", Bit(!r.arpVulnerability))])
  }

  function GbrTrees(r: Rule): seq<Avp>
  {
    (if r.gbrUl != 0 then [Number(1026, "c0", r.gbrUl)] else [])
    + (if r.gbrDl != 0 then [Number(1025, "c0", r.gbrDl)] else [])
  }

  function QosTree(r: Rule): Avp
  {
    Group(1016, "c0", Some(VENDOR_3GPP),
          [Number(1028, "c0", r.qci)] + [ArpTree(r)]
          + ([Number(516, "c0", r.mbrUl)] + [Number(515, "c0", r.mbrDl)] + GbrTrees(r)))
  }

  function RatingTrees(r: Rule): seq<Avp>
  {
    if r.ratingGroup.None? then [] else [Leaf(432, "40", None, HexField(r.ratingGroup.value, 8))]
  }

  /** What follows the flow information in a rule definition. */
  function TailTrees(r: Rule): seq<Avp>
  {
    [Number(511, "c0", 2)] + [QosTree(r)] + [Number(1010, "c0", r.precedence)] + RatingTrees(r)
  }

  function DefinitionTree(r: Rule, ts: seq<Tft>): Avp
  {
    Group(1003, "c0", Some(VENDOR_3GPP), [Text(1005, r.name)] + (TftTrees(ts) + TailTrees(r)))
  }

  function InstallTree(r: Rule, ts: seq<Tft>): Avp
  {
    Group(1001, "c0", Some(VENDOR_3GPP), [DefinitionTree(r, ts)])
  }

  function RemoveTree(name: string): Avp
  {
    Group(1002, "c0", Some(VENDOR_3GPP), [Text(1005, name)])
  }

  // ------------------------------------------------------------ the generator

  lemma EncodeGroup(code: nat, flags: string, kids: seq<Avp>)
    ensures EncodeAvp(Group(code, flags, Some(VENDOR_3GPP), kids))
      == GenerateVendorAvp(code, flags, VENDOR_3GPP, EncodeForest(kids))
  {
  }

  method GenerateFlow(t: Tft) returns (avp: string)
    ensures avp == EncodeAvp(TftTree(t))
  {
    hide GenerateVendorAvp, EncodeForest, IntToHex, StringToHex;
    var direction := GenerateVendorAvp(1080, "80", VENDOR_3GPP, IntToHex(t.direction, 4));
    var description := GenerateVendorAvp(507, "c0", VENDOR_3GPP, StringToHex(t.text));
    avp := GenerateVendorAvp(1058, "80", VENDOR_3GPP, direction + description);
    var a, b := Number(1080, "80", t.direction), Text(507, t.text);
    EncodeConcat([a], [b]);
    EncodeSingle(a);
    EncodeSingle(b);
    EncodeGroup(1058, "80", [a] + [b]);
  }

  method GenerateArp(r: Rule) returns (avp: string)
    ensures avp == EncodeAvp(ArpTree(r))
  {
    hide GenerateVendorAvp, EncodeForest, IntToHex;
    var priority := GenerateVendorAvp(1046, "80", VENDOR_3GPP, IntToHex(r.arpPriority, 4));
    var capability := GenerateVendorAvp(1047, "80", VENDOR_3GPP, IntToHex(Bit(!r.arpCapability), 4));
    var vulnerability := GenerateVendorAvp(1048, "80", VENDOR_3GPP, IntToHex(Bit(!r.arpVulnerability), 4));
    avp := GenerateVendorAvp(1034, "80", VENDOR_3GPP, priority + capability + vulnerability);
    var a, b, c := Number(1046, "80", r.arpPriority), Number(1047, "80", Bit(!r.arpCapability)), Number(1048, "80", Bit(!r.arpVulnerability));
    EncodeConcat([a] + [b], [c]);
    EncodeConcat([a], [b]);
    EncodeSingle(a);
    EncodeSingle(b);
    EncodeSingle(c);
    EncodeGroup(1034, "80", [a] + [b] + [c]);
  }

  /** The bandwidth AVPs; a guaranteed rate of zero is left out. */
  method GenerateBandwidth(r: Rule) returns (info: string)
    ensures info == EncodeForest([Number(516, "c0", r.mbrUl)] + [Number(515, "c0", r.mbrDl)] + GbrTrees(r))
  {
    hide GenerateVendorAvp, EncodeForest, IntToHex;
    ghost var done := [Number(516, "c0", r.mbrUl)];
    EncodeSingle(Number(516, "c0", r.mbrUl));
    info := GenerateVendorAvp(516, "c0", VENDOR_3GPP, IntToHex(r.mbrUl, 4));
    EncodeConcat(done, [Number(515, "c0", r.mbrDl)]);
    EncodeSingle(Number(515, "c0", r.mbrDl));
    done := done + [Number(515, "c0", r.mbrDl)];
    info := info + GenerateVendorAvp(515, "c0", VENDOR_3GPP, IntToHex(r.mbrDl, 4));
    ghost var base := done;
    if r.gbrUl != 0 {
      EncodeConcat(done, [Number(1026, "c0", r.gbrUl)]);
      EncodeSingle(Number(1026, "c0", r.gbrUl));
      done := done + [Number(1026, "c0", r.gbrUl)];
      info := info + GenerateVendorAvp(1026, "c0", VENDOR_3GPP, IntToHex(r.gbrUl, 4));
    }
    if r.gbrDl != 0 {
      EncodeConcat(done, [Number(1025, "c0", r.gbrDl)]);
      EncodeSingle(Number(1025, "c0", r.gbrDl));
      done := done + [Number(1025, "c0", r.gbrDl)];
      info := info + GenerateVendorAvp(1025, "c0", VENDOR_3GPP, IntToHex(r.gbrDl, 4));
    }
    assert done == base + GbrTrees(r);
  }

  method GenerateQos(r: Rule) returns (avp: string)
    ensures avp == EncodeAvp(QosTree(r))
  {
    hide GenerateVendorAvp, EncodeForest, IntToHex, ArpTree;
    var qci := GenerateVendorAvp(1028, "c0", VENDOR_3GPP, IntToHex(r.qci, 4));
    var arp := GenerateArp(r);
    var bandwidth := GenerateBandwidth(r);
    avp := GenerateVendorAvp(1016, "c0", VENDOR_3GPP, qci + arp + bandwidth);
    var a, b := Number(1028, "c0", r.qci), ArpTree(r);
    var c := [Number(516, "c0", r.mbrUl)] + [Number(515, "c0", r.mbrDl)] + GbrTrees(r);
    EncodeConcat([a] + [b], c);
    EncodeConcat([a], [b]);
    EncodeSingle(a);
    EncodeSingle(b);
    EncodeGroup(1016, "c0", [a] + [b] + c);
  }

  /** The flow information AVPs; the templates are spliced in the caller's list. */
  method GenerateFlows(tfts: array<Tft>, ueIp: string) returns (flows: string)
    modifies tfts
    ensures tfts[..] == SplicedAll(old(tfts[..]), ueIp)
    ensures flows == EncodeForest(TftTrees(tfts[..]))
  {
    hide EncodeForest, Spliced, TftTree;
    flows := "";
    ghost var before := tfts[..];
    assert EncodeForest(TftTrees([])) == "" by { EncodeNothing(); }
    for i := 0 to tfts.Length
      invariant tfts[..i] == SplicedAll(before[..i], ueIp)
      invariant tfts[i..] == before[i..]
      invariant flows == EncodeForest(TftTrees(tfts[..i]))
    {
      ghost var done := tfts[..i];
      assert tfts[i] == tfts[i..][0];
      tfts[i] := Spliced(tfts[i], ueIp);
      var flow := GenerateFlow(tfts[i]);
      flows := flows + flow;
      EncodeConcat(TftTrees(done), [TftTree(tfts[i])]);
      EncodeSingle(TftTree(tfts[i]));
      assert tfts[..i + 1] == done + [tfts[i]];
      assert TftTrees(tfts[..i + 1]) == TftTrees(done) + [TftTree(tfts[i])];
      assert before[..i + 1] == before[..i] + [before[i]];
    }
    assert tfts[..tfts.Length] == tfts[..] && before[..tfts.Length] == before;
  }

  lemma EncodeDefinition(r: Rule, ts: seq<Tft>)
    ensures EncodeForest([Text(1005, r.name)] + (TftTrees(ts) + TailTrees(r)))
      == EncodeAvp(Text(1005, r.name)) + EncodeForest(TftTrees(ts)) + EncodeAvp(Number(511, "c0", 2))
         + EncodeAvp(QosTree(r)) + EncodeAvp(Number(1010, "c0", r.precedence)) + EncodeForest(RatingTrees(r))
  {
    hide EncodeForest, EncodeAvp, Text, TftTrees, QosTree, RatingTrees, Number;
    var a, b, c, d := Text(1005, r.name), Number(511, "c0", 2), QosTree(r), Number(1010, "c0", r.precedence);
    EncodeConcat([a], TftTrees(ts) + TailTrees(r));
    EncodeConcat(TftTrees(ts), TailTrees(r));
    EncodeConcat([b] + [c] + [d], RatingTrees(r));
    EncodeConcat([b] + [c], [d]);
    EncodeConcat([b], [c]);
    EncodeSingle(a);
    EncodeSingle(b);
    EncodeSingle(c);
    EncodeSingle(d);
  }

  method ChargingRuleGenerator(rule: Option<Rule>, tfts: array<Tft>, ueIp: Option<string>,
                               ruleName: Option<string>, action: string)
    returns (avp: Option<string>)
    modifies tfts
    ensures action == "install" && rule.Some? && ueIp.Some? ==>
      && tfts[..] == SplicedAll(old(tfts[..]), ueIp.value)
      && avp == Some(EncodeAvp(InstallTree(rule.value, tfts[..])))
    ensures action == "remove" && ruleName.Some? ==> avp == Some(EncodeAvp(RemoveTree(ruleName.value)))
    ensures avp.None? <==> !(action == "install" && rule.Some? && ueIp.Some?) && !(action == "remove" && ruleName.Some?)
    ensures !(action == "install" && rule.Some? && ueIp.Some?) ==> tfts[..] == old(tfts[..])
  {
    hide GenerateVendorAvp, GenerateAvp, EncodeForest, IntToHex, StringToHex, TftTrees, SplicedAll, QosTree;
    if action != "install" && action != "remove" {
      return None;
    }
    if action == "remove" {
      if ruleName.None? {
        return None;
      }
      var name := GenerateVendorAvp(1005, "c0", VENDOR_3GPP, StringToHex(ruleName.value));
      EncodeSingle(Text(1005, ruleName.value));
      EncodeGroup(1002, "c0", [Text(1005, ruleName.value)]);
      return Some(GenerateVendorAvp(1002, "c0", VENDOR_3GPP, name));
    }
    if rule.None? || ueIp.None? {
      return None;
    }
    var r := rule.value;
    var name := GenerateVendorAvp(1005, "c0", VENDOR_3GPP, StringToHex(r.name));
    var flows := GenerateFlows(tfts, ueIp.value);
    var status := GenerateVendorAvp(511, "c0", VENDOR_3GPP, IntToHex(2, 4));
    var qos := GenerateQos(r);
    var precedence := GenerateVendorAvp(1010, "c0", VENDOR_3GPP, IntToHex(r.precedence, 4));
    var rating := "";
    EncodeNothing();
    if r.ratingGroup.Some? {
      rating := GenerateAvp(432, "40", HexField(r.ratingGroup.value, 8));
      EncodeSingle(RatingTrees(r)[0]);
    }
    EncodeDefinition(r, tfts[..]);
    var definition := GenerateVendorAvp(1003, "c0", VENDOR_3GPP, name + flows + status + qos + precedence + rating);
    EncodeGroup(1003, "c0", [Text(1005, r.name)] + (TftTrees(tfts[..]) + TailTrees(r)));
    EncodeSingle(DefinitionTree(r, tfts[..]));
    EncodeGroup(1001, "c0", [DefinitionTree(r, tfts[..])]);
    avp := Some(GenerateVendorAvp(1001, "c0", VENDOR_3GPP, definition));
  }
}
