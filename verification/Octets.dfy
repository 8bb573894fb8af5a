/** Byte strings: their hex text (`binascii.hexlify`, `unhexlify`), their big-endian
    value (`int.from_bytes`) and the UTF-8 encoding of text (`str.encode`). */
module Octets {
  import opened PyText

  type Byte = b: int | 0 <= b < 256

  function Hexlify(b: seq<Byte>): (h: string)
    ensures |h| == 2 * |b| && AllDigits(h, 16)
    ensures forall i :: 0 <= i < |h| ==> h[i] == if i % 2 == 0 then DigitChar(b[i / 2] / 16) else DigitChar(b[i / 2] % 16)
  {
    seq(2 * |b|, i requires 0 <= i < 2 * |b| =>
      if i % 2 == 0 then DigitChar(b[i / 2] / 16) else DigitChar(b[i / 2] % 16))
  }

  /** The bytes spelled by hex text; `None` for odd length or another character. */
  function Unhexlify(h: string): (r: Option<seq<Byte>>)
    ensures r.Some? <==> |h| % 2 == 0 && AllDigits(h, 16)
    ensures r.Some? ==> |r.value| == |h| / 2
  {
    if |h| % 2 != 0 || !AllDigits(h, 16) then None
    else Some(seq(|h| / 2, i requires 0 <= i < |h| / 2 => PairValue(h[2 * i], h[2 * i + 1])))
  }

  function PairValue(hi: char, lo: char): Byte
    requires IsDigit(hi, 16) && IsDigit(lo, 16)
  {
    DigitVal(hi) * 16 + DigitVal(lo)
  }

  function BigEndian(b: seq<Byte>): nat
  {
    if b == [] then 0 else BigEndian(b[..|b| - 1]) * 256 + b[|b| - 1]
  }

  lemma PairOfByte(x: Byte)
    ensures var hi, lo := DigitChar(x / 16), DigitChar(x % 16);
      IsDigit(hi, 16) && IsDigit(lo, 16) && PairValue(hi, lo) == x
  {
  }

  lemma HexRoundTrip(b: seq<Byte>)
    ensures Unhexlify(Hexlify(b)) == Some(b)
  {
    hide DigitChar, DigitVal, PairValue, Hexlify;
    var h := Hexlify(b);
    var r := Unhexlify(h).value;
    forall i | 0 <= i < |b| ensures r[i] == b[i] {
      assert (2 * i) / 2 == i && (2 * i + 1) / 2 == i;
      assert r[i] == PairValue(h[2 * i], h[2 * i + 1]);
      PairOfByte(b[i]);
    }
    assert r == b;
  }

  lemma HexlifySlice(b: seq<Byte>, i: nat, j: nat)
    requires i <= j <= |b|
    ensures Hexlify(b)[2 * i..2 * j] == Hexlify(b[i..j])
  {
    hide DigitChar;
    var l, r := Hexlify(b)[2 * i..2 * j], Hexlify(b[i..j]);
    forall k | 0 <= k < 2 * (j - i) ensures l[k] == r[k] {
      var m := 2 * i + k;
      assert m / 2 == i + k / 2 && m % 2 == k % 2;
      assert l[k] == Hexlify(b)[m];
      assert b[i..j][k / 2] == b[i + k / 2];
    }
  }

  /** Reading hex text as one number is reading its bytes big-endian. */
  lemma {:induction false} UnhexValue(h: string)
    requires |h| % 2 == 0 && AllDigits(h, 16)
    ensures BigEndian(Unhexlify(h).value) == Value(h, 16)
  {
    if h != [] {
      var n := |h|;
      var rest := h[..n - 2];
      UnhexValue(rest);
      UnhexLast(h);
      ValueLastTwo(h);
    }
  }

  lemma UnhexLast(h: string)
    requires |h| % 2 == 0 && |h| >= 2 && AllDigits(h, 16)
    ensures AllDigits(h[..|h| - 2], 16)
    ensures Unhexlify(h).value[..|h| / 2 - 1] == Unhexlify(h[..|h| - 2]).value
    ensures Unhexlify(h).value[|h| / 2 - 1] == DigitVal(h[|h| - 2]) * 16 + DigitVal(h[|h| - 1])
  {
    hide DigitVal;
  }

  lemma ValueLastTwo(h: string)
    requires |h| >= 2 && AllDigits(h, 16)
    ensures Value(h, 16) == Value(h[..|h| - 2], 16) * 256 + (DigitVal(h[|h| - 2]) * 16 + DigitVal(h[|h| - 1]))
  {
    var n := |h|;
    assert IsDigit(h[n - 1], 16) && IsDigit(h[n - 2], 16);
    assert h[..n - 1][..n - 2] == h[..n - 2];
  }

  lemma HexlifyValue(b: seq<Byte>)
    ensures Value(Hexlify(b), 16) == BigEndian(b)
  {
    HexRoundTrip(b);
    UnhexValue(Hexlify(b));
  }

  // ------------------------------------------------------------------- UTF-8

  /** The UTF-8 encoding of one character; surrogates are not characters here. */
  function Utf8(c: char): (r: seq<Byte>)
    ensures |r| >= 1
    ensures c >= ' ' ==> forall i :: 0 <= i < |r| ==> r[i] >= 0x20
  {
    var n := c as int;
    if n < 0x80 then [n]
    else if n < 0x800 then [0xC0 + n / 0x40, 0x80 + n % 0x40]
    else if n < 0x1_0000 then [0xE0 + n / 0x1000, 0x80 + n / 0x40 % 0x40, 0x80 + n % 0x40]
    else [0xF0 + n / 0x4_0000, 0x80 + n / 0x1000 % 0x40, 0x80 + n / 0x40 % 0x40, 0x80 + n % 0x40]
  }

  /** `text.encode('utf-8')` */
  function Encode(text: string): seq<Byte>
  {
    if text == [] then [] else Utf8(text[0]) + Encode(text[1..])
  }

  /** No character below U+0020. */
  predicate NoControls(text: string)
  {
    forall i :: 0 <= i < |text| ==> text[i] >= ' '
  }

  lemma {:induction false} PrintableBytes(text: string)
    requires NoControls(text)
    ensures forall i :: 0 <= i < |Encode(text)| ==> Encode(text)[i] >= 0x20
  {
    if text != [] { PrintableBytes(text[1..]); }
  }

  /** How many bytes the character at the front of UTF-8 text takes, by its first byte. */
  function CharBytes(first: Byte): (n: nat)
    ensures 1 <= n <= 4
  {
    if first < 0x80 then 1 else if first < 0xE0 then 2 else if first < 0xF0 then 3 else 4
  }

  /** The code point written by the bytes of one character. */
  function CodePoint(b: seq<int>): int
    requires b != []
  {
    if |b| == 1 then b[0]
    else if |b| == 2 then (b[0] - 0xC0) * 0x40 + (b[1] - 0x80)
    else if |b| == 3 then (b[0] - 0xE0) * 0x1000 + (b[1] - 0x80) * 0x40 + (b[2] - 0x80)
    else if |b| == 4 then (b[0] - 0xF0) * 0x4_0000 + (b[1] - 0x80) * 0x1000 + (b[2] - 0x80) * 0x40 + (b[3] - 0x80)
    else 0
  }

  /** The code points of UTF-8 text. */
  function DecodeUtf8(b: seq<Byte>): seq<int>
  {
    if b == [] || |b| < CharBytes(b[0]) then []
    else [CodePoint(b[..CharBytes(b[0])])] + DecodeUtf8(b[CharBytes(b[0])..])
  }

  function CodePoints(text: string): seq<int>
  {
    if text == [] then [] else [text[0] as int] + CodePoints(text[1..])
  }

  lemma Sextets(n: nat)
    ensures n == n / 0x40 * 0x40 + n % 0x40
    ensures n / 0x40 == n / 0x1000 * 0x40 + n / 0x40 % 0x40
    ensures n / 0x1000 == n / 0x4_0000 * 0x40 + n / 0x1000 % 0x40
  {
    assert n / 0x1000 == n / 0x40 / 0x40;
    assert n / 0x4_0000 == n / 0x1000 / 0x40;
  }

  lemma CharReads(c: char)
    ensures CharBytes(Utf8(c)[0]) == |Utf8(c)| && CodePoint(Utf8(c)) == c as int
  {
    Sextets(c as int);
  }

  /** Encoded text reads back, character by character. */
  lemma {:induction false} TextReads(text: string)
    ensures DecodeUtf8(Encode(text)) == CodePoints(text)
  {
    hide Utf8, CodePoint, CharBytes;
    if text != [] {
      var first, rest := Utf8(text[0]), Encode(text[1..]);
      CharReads(text[0]);
      TextReads(text[1..]);
      assert (first + rest)[..|first|] == first && (first + rest)[|first|..] == rest;
    }
  }
}
