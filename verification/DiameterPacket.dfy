/** The Diameter header around a list of AVPs: `generate_diameter_packet` and
    `decode_diameter_packet`. */
module DiameterPacket {
  import opened PyText
  import opened AvpCodec
  import opened AvpForest

  datatype PacketVars = PacketVars(
    version: string, length: int, flags: string, flagsBin: string,
    commandCode: int, applicationId: int, hopByHop: string, endToEnd: string)

  function GeneratePacket(version: string, flags: string, command: nat, application: nat,
                          hopByHop: string, endToEnd: string, avps: string): string
  {
    var tail := flags + HexField(command, 6) + HexField(application, 8) + hopByHop + endToEnd + avps;
    var draft := version + HexField(228, 6) + tail;
    version + HexField(|draft| / 2, 6) + tail
  }

  /** `bin(n)[2:].zfill(8)`: for a negative number the slice leaves the letter b. */
  function FlagBits(n: int): string
  {
    if n < 0 then Zfill("b" + Digits(-n, 2), 8) else Zfill(Digits(n, 2), 8)
  }

  /** The parsed header; `None` where a numeric field raises. */
  function DecodeHeader(data: string): Option<PacketVars>
  {
    var length := ParseInt(Slice(data, 2, 8), 16);
    var flags := ParseInt(Slice(data, 8, 10), 16);
    var command := ParseInt(Slice(data, 10, 16), 16);
    var application := ParseInt(Slice(data, 16, 24), 16);
    if length.None? || flags.None? || command.None? || application.None? then None
    else Some(PacketVars(
        Slice(data, 0, 2), length.value, Slice(data, 8, 10), FlagBits(flags.value),
        command.value, application.value, Slice(data, 24, 32), Slice(data, 32, 40)))
  }

  method DecodeDiameterPacket(data: string) returns (packet: Option<(PacketVars, seq<TopRecord>)>)
    ensures packet.None? <==> DecodeHeader(data).None?
    ensures packet.Some? ==> packet.value == (DecodeHeader(data).value, Decode(Drop(data, 40)))
  {
    var vars := DecodeHeader(data);
    if vars.None? {
      return None;
    }
    var avps := DecodeAvpPacket(Drop(data, 40));
    packet := Some((vars.value, avps));
  }

  /** The header values that fit their fields (section 3 of RFC 6733). */
  predicate HeaderFieldsFit(version: string, flags: string, command: nat, application: nat,
                            hopByHop: string, endToEnd: string)
  {
    && |version| == 2 && |flags| == 2 && AllDigits(flags, 16)
    && command < 0x100_0000 && application < 0x1_0000_0000
    && |hopByHop| == 8 && |endToEnd| == 8
  }

  lemma PacketShape(version: string, flags: string, command: nat, application: nat,
                    hopByHop: string, endToEnd: string, avps: string, length: nat)
    requires HeaderFieldsFit(version, flags, command, application, hopByHop, endToEnd)
    requires |HexField(command, 6)| == 6 && |HexField(application, 8)| == 8 && |HexField(228, 6)| == 6
    requires length == 20 + |avps| / 2
    ensures GeneratePacket(version, flags, command, application, hopByHop, endToEnd, avps)
      == version + HexField(length, 6)
         + (flags + HexField(command, 6) + HexField(application, 8) + hopByHop + endToEnd + avps)
  {
    hide HexField;
    var tail := flags + HexField(command, 6) + HexField(application, 8) + hopByHop + endToEnd + avps;
    assert |version + HexField(228, 6) + tail| == 40 + |avps|;
    assert (40 + |avps|) / 2 == length;
  }

  lemma PacketSlices(v: string, l: string, fl: string, c: string, a: string, h: string, e: string, avps: string)
    requires |v| == 2 && |l| == 6 && |fl| == 2 && |c| == 6 && |a| == 8 && |h| == 8 && |e| == 8
    ensures var s := v + l + (fl + c + a + h + e + avps);
      && Slice(s, 0, 2) == v && Slice(s, 2, 8) == l && Slice(s, 8, 10) == fl && Slice(s, 10, 16) == c
      && Slice(s, 16, 24) == a && Slice(s, 24, 32) == h && Slice(s, 32, 40) == e
      && Drop(s, 40) == avps && |s| == 40 + |avps|
  {
    var t := fl + c + a + h + e + avps;
    assert t[0..2] == fl && t[2..8] == c && t[8..16] == a && t[16..24] == h && t[24..32] == e && t[32..] == avps;
    var s := v + l + t;
    assert s[8..] == t;
    assert forall i, j :: 8 <= i <= j <= |s| ==> s[i..j] == t[i - 8..j - 8];
  }

  lemma PacketFieldsRead(flags: string, command: nat, application: nat, length: nat)
    requires |flags| == 2 && AllDigits(flags, 16)
    requires command < 0x100_0000 && application < 0x1_0000_0000 && length < 0x100_0000
    ensures |HexField(228, 6)| == 6
    ensures |HexField(length, 6)| == 6 && ParseInt(HexField(length, 6), 16) == Some(length)
    ensures |HexField(command, 6)| == 6 && ParseInt(HexField(command, 6), 16) == Some(command)
    ensures |HexField(application, 8)| == 8 && ParseInt(HexField(application, 8), 16) == Some(application)
    ensures ParseInt(flags, 16) == Some(Value(flags, 16))
  {
    hide HexField, ParseInt, Value, AllDigits;
    HexWidths();
    HexFieldReads(228, 6);
    HexFieldReads(length, 6);
    HexFieldReads(command, 6);
    HexFieldReads(application, 8);
    ParseDigits(flags, 16);
  }

  /** The header of a printed packet reads back. */
  lemma PacketHeaderReads(version: string, flags: string, command: nat, application: nat,
                          hopByHop: string, endToEnd: string, avps: string)
    requires HeaderFieldsFit(version, flags, command, application, hopByHop, endToEnd)
    requires 20 + |avps| / 2 < 0x100_0000
    ensures var s := GeneratePacket(version, flags, command, application, hopByHop, endToEnd, avps);
      && |s| == 40 + |avps| && Drop(s, 40) == avps
      && DecodeHeader(s) == Some(PacketVars(version, |s| / 2, flags, FlagBits(Value(flags, 16)),
                                            command, application, hopByHop, endToEnd))
  {
    hide HexField, ParseInt, GeneratePacket, Slice, Drop, FlagBits, Value, AllDigits;
    var length := 20 + |avps| / 2;
    PacketFieldsRead(flags, command, application, length);
    PacketShape(version, flags, command, application, hopByHop, endToEnd, avps, length);
    PacketSlices(version, HexField(length, 6), flags, HexField(command, 6), HexField(application, 8), hopByHop, endToEnd, avps);
  }

  /** A packet too long for its length field declares another length than it has. */
  lemma OverlongPacket(version: string, flags: string, command: nat, application: nat,
                       hopByHop: string, endToEnd: string, avps: string)
    requires HeaderFieldsFit(version, flags, command, application, hopByHop, endToEnd)
    requires 20 + |avps| / 2 >= 0x100_0000
    ensures var s := GeneratePacket(version, flags, command, application, hopByHop, endToEnd, avps);
      DecodeHeader(s).Some? ==> DecodeHeader(s).value.length < |s| / 2
  {
    hide HexField, ParseInt, Slice, FlagBits;
    var s := GeneratePacket(version, flags, command, application, hopByHop, endToEnd, avps);
    if DecodeHeader(s).Some? {
      HexWidths();
      SliceShort(s, 2, 8);
      ParseBound(Slice(s, 2, 8), 16, 6);
    }
  }

  /** What a printed packet must read back as: header with the real byte count, and AVPs. */
  predicate ReadsBack(version: string, flags: string, command: nat, application: nat,
                      hopByHop: string, endToEnd: string, f: seq<Avp>, s: string)
  {
    && DecodeHeader(s) == Some(PacketVars(version, |s| / 2, flags, FlagBits(Value(flags, 16)),
                                          command, application, hopByHop, endToEnd))
    && Decode(Drop(s, 40)) == TopRecords(f)
  }

  /** A printed packet reads back exactly if its AVPs do and its length fits the header; its
      byte count is then a multiple of four. */
  lemma PacketRoundTrip(version: string, flags: string, command: nat, application: nat,
                        hopByHop: string, endToEnd: string, f: seq<Avp>, s: string)
    requires HeaderFieldsFit(version, flags, command, application, hopByHop, endToEnd)
    requires s == GeneratePacket(version, flags, command, application, hopByHop, endToEnd, EncodeForest(f))
    ensures ReadsBack(version, flags, command, application, hopByHop, endToEnd, f, s)
      <==> 20 + |EncodeForest(f)| / 2 < 0x100_0000 && GoodForest(f) && |Flat(f)| <= FAILSAFE && !EndsBare(f)
    ensures ReadsBack(version, flags, command, application, hopByHop, endToEnd, f, s) ==> |s| % 8 == 0
  {
    hide Decode, DecodeHeader, TopRecords, GoodForest, Flat, EndsBare, EncodeForest, GeneratePacket, HeaderFieldsFit, Drop, FlagBits, Value;
    var avps := EncodeForest(f);
    RoundTripIff(f);
    if 20 + |avps| / 2 < 0x100_0000 {
      PacketHeaderReads(version, flags, command, application, hopByHop, endToEnd, avps);
      if GoodForest(f) {
        GoodAligned(f);
        EightIsEven(|avps|);
      }
    } else {
      OverlongPacket(version, flags, command, application, hopByHop, endToEnd, avps);
    }
  }

  lemma GoodAligned(f: seq<Avp>)
    requires GoodForest(f)
    ensures |EncodeForest(f)| % 8 == 0
  {
    hide EncodeForest, WellFormed, Transparent;
    ForestAligned(f);
  }

  /** The binary view of the flags is eight bits that spell the flags byte. */
  lemma FlagBitsSpell(flags: string)
    requires |flags| == 2 && AllDigits(flags, 16)
    ensures |FlagBits(Value(flags, 16))| == 8 && Value(FlagBits(Value(flags, 16)), 2) == Value(flags, 16)
  {
    var n := Value(flags, 16);
    assert n < 256 by {
      assert IsDigit(flags[0], 16) && IsDigit(flags[1], 16);
      assert flags[..1][..0] == [];
      assert Value(flags[..1], 16) == DigitVal(flags[0]);
    }
    assert Pow(2, 4) == 16 && Pow(2, 8) == 256;
    DigitsWidth(n, 2, 8);
    ValueOfDigits(n, 2);
    ValueOfPadded(8 - |Digits(n, 2)|, Digits(n, 2), 2);
  }

  /** A sign in the flags field is not refused, and leaves a letter among the bits. */
  lemma SignedFlags()
    ensures ParseInt("-5", 16) == Some(-5) && FlagBits(-5) == "0000b101"
  {
    assert Digits(1, 2) == "1" && Digits(2, 2) == "10" && Digits(5, 2) == "101";
    var t := "-5";
    assert StripLeft(t) == t && StripRight(t) == t && t[1..] == "5" && "5"[..0] == "";
  }
}
