/** Text payloads: why the schema-less parser does not take text for a group. */
module AvpText {
  import opened PyText
  import opened Octets
  import opened AvpCodec

  /** The byte count below which three printable bytes, read as an AVP length, overrun. */
  const TEXT_LIMIT: nat := 0x20_2020

  function StringToHex(text: string): (h: string)
    ensures |h| == 2 * |Encode(text)|
  {
    Hexlify(Encode(text))
  }

  /** `int_to_hex(n, bytes)`: zeros go between a sign and the digits. */
  function IntToHex(n: int, bytes: nat): string
  {
    if n < 0 then "-" + HexField(-n, if bytes == 0 then 0 else bytes * 2 - 1) else HexField(n, bytes * 2)
  }

  lemma PrintableValue(b: seq<Byte>)
    requires 1 <= |b| <= 3 && forall i :: 0 <= i < |b| ==> b[i] >= 0x20
    ensures |b| == 1 ==> BigEndian(b) >= 0x20
    ensures |b| == 2 ==> BigEndian(b) >= 0x2020
    ensures |b| == 3 ==> BigEndian(b) >= TEXT_LIMIT
  {
    var c := b[..|b| - 1];
    if |b| >= 2 { assert c[|c| - 1] >= 0x20; }
    if |b| >= 3 { var d := c[..1]; assert d[0] >= 0x20; assert c[..|c| - 1] == d; }
  }

  /** Bytes of printable text never pass for an AVP: where the parser looks for a length,
      it reads one larger than the text. */
  lemma PrintableIsNoAvp(b: seq<Byte>)
    requires |b| < TEXT_LIMIT && forall i :: 0 <= i < |b| ==> b[i] >= 0x20
    ensures !ValidateSingleAvp(Hexlify(b))
  {
    hide ParseInt, Value, Hexlify, BigEndian, AllDigits;
    var h := Hexlify(b);
    var end := if |b| < 8 then |b| else 8;
    if |b| <= 5 {
      assert Slice(h, 10, 16) == "";
      EmptyNumber();
    } else {
      var field := b[5..end];
      HexlifySlice(b, 5, end);
      assert Slice(h, 10, 16) == Hexlify(field);
      ParseDigits(Hexlify(field), 16);
      HexlifyValue(field);
      PrintableValue(field);
      assert |Drop(h, 16)| / 2 == |b| - end;
    }
  }

  lemma EmptyNumber()
    ensures ParseInt("", 16).None?
  {
  }

  /** Text is never mistaken for a group. */
  lemma TextIsNoAvp(text: string)
    requires NoControls(text) && |Encode(text)| < TEXT_LIMIT
    ensures !ValidateSingleAvp(StringToHex(text))
  {
    hide ValidateSingleAvp, Encode;
    PrintableBytes(text);
    PrintableIsNoAvp(Encode(text));
  }

  /** Neither is a payload of fewer than six bytes, such as a 32-bit number. */
  lemma ShortIsNoAvp(payload: string)
    requires |payload| <= 10
    ensures !ValidateSingleAvp(payload)
  {
    hide ParseInt;
    assert Slice(payload, 10, 16) == "";
    EmptyNumber();
  }

  /** The hex text of a string spells its own code points. */
  lemma StringToHexReads(text: string)
    ensures var b := Unhexlify(StringToHex(text)); b.Some? && DecodeUtf8(b.value) == CodePoints(text)
  {
    hide Encode, Hexlify, Unhexlify;
    HexRoundTrip(Encode(text));
    TextReads(text);
  }

  /** A 32-bit number is printed in eight digits that read back; a negative one keeps its sign. */
  lemma IntToHexReads(n: int)
    requires -0x1000_0000 < n < 0x1_0000_0000
    ensures |IntToHex(n, 4)| == 8
    ensures n >= 0 ==> ParseInt(IntToHex(n, 4), 16) == Some(n)
    ensures n < 0 ==> IntToHex(n, 4)[0] == '-' && ParseInt(IntToHex(n, 4)[1..], 16) == Some(-n)
  {
    hide HexField, ParseInt;
    HexWidths();
    if n >= 0 {
      HexFieldReads(n, 8);
    } else {
      assert Pow(16, 7) == 0x1000_0000 by { assert Pow(16, 6) == 0x100_0000; }
      HexFieldReads(-n, 7);
    }
  }

  // -------------------------------------------- which bytes pass for an AVP

  lemma FlagsSpell(b: Byte)
    ensures IsKnownFlags(Hexlify([b])) <==> b == 0x80 || b == 0x40 || b == 0x20 || b == 0x00 || b == 0xc0
  {
    hide Hexlify;
    var h := Hexlify([b]);
    assert h == [DigitChar(b / 16), DigitChar(b % 16)];
  }

  /** `s[2i:2j]` of hex text is the hex text of the bytes from `i` to `j`, as far as they go. */
  lemma HexSlice(b: seq<Byte>, i: nat, j: nat)
    requires i <= j
    ensures Slice(Hexlify(b), 2 * i, 2 * j) == Hexlify(Slice(b, i, j))
  {
    hide Hexlify;
    var l, r := Bound(|b|, i), Bound(|b|, j);
    assert Bound(|Hexlify(b)|, 2 * i) == 2 * l && Bound(|Hexlify(b)|, 2 * j) == 2 * r;
    HexlifySlice(b, l, r);
  }

  lemma HexParses(b: seq<Byte>)
    ensures ParseInt(Hexlify(b), 16) == if b == [] then None else Some(BigEndian(b))
  {
    hide ParseInt, Hexlify, Value, BigEndian;
    if b == [] {
      assert Hexlify(b) == "";
      EmptyNumber();
    } else {
      ParseDigits(Hexlify(b), 16);
      HexlifyValue(b);
    }
  }

  /** The payloads that the parser takes for a group, byte by byte: the fifth byte is one of
      five flag values, and the length in the three bytes behind it (or in what there is of
      them) does not go beyond the payload (or beyond a bare header). */
  lemma PassesIff(b: seq<Byte>)
    ensures ValidateSingleAvp(Hexlify(b)) <==>
      && |b| > 5 && (b[4] == 0x80 || b[4] == 0x40 || b[4] == 0x20 || b[4] == 0x00 || b[4] == 0xc0)
      && (if |b| >= 8 then BigEndian(b[5..8]) <= |b| else BigEndian(b[5..]) <= 8)
  {
    hide ParseInt, Hexlify, BigEndian, IsKnownFlags, Slice, Drop;
    HexSlice(b, 0, 4);
    HexSlice(b, 4, 5);
    HexSlice(b, 5, 8);
    HexParses(Slice(b, 0, 4));
    HexParses(Slice(b, 5, 8));
    ByteSlices(b);
    DropSize(Hexlify(b), 16);
    if |b| > 5 { FlagsSpell(b[4]); }
  }

  lemma DropSize(s: string, n: nat)
    ensures |Drop(s, n)| == if |s| < n then 0 else |s| - n
  {
  }

  lemma ByteSlices(b: seq<Byte>)
    ensures Slice(b, 5, 8) == if |b| <= 5 then [] else if |b| < 8 then b[5..] else b[5..8]
    ensures |b| > 5 ==> Slice(b, 4, 5) == [b[4]] && Slice(b, 0, 4) != []
  {
  }
}
