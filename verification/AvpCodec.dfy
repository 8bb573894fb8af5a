/** The Diameter AVP printer and parser of `diameter.py`, over hex text.

    The printer is a set of expressions and is modelled by functions.  The parser
    is a loop with a nested loop, an explicit stack and a failsafe counter; it is
    modelled by the method `DecodeAvpPacket`, which is proved equal to the
    recursive functions `DrainStack` and `DecodeFrom`. */
module AvpCodec {
  import opened PyText

  /** The failsafe bound on the work of one `decodeAvpPacket` call. */
  const FAILSAFE: nat := 100

  // ---------------------------------------------------------------- printing

  function RoundUpToMultiple(n: int, multiple: int): int
    requires multiple > 0
  {
    (n + multiple - 1) / multiple * multiple
  }

  function MyRound(n: int): int
  {
    if n > 0 then (n + 3) / 4 * 4 else if n < 0 then n / 4 * 4 else 4
  }

  /** The zero padding, in hex characters, after an AVP of `length` bytes. */
  function Padding(length: nat): (r: string)
    ensures |r| == 2 * (RoundUpToMultiple(length, 4) - length)
    ensures forall i :: 0 <= i < |r| ==> r[i] == '0'
  {
    if length % 4 == 0 then "" else Zfill("0", (MyRound(length) - length) * 2)
  }

  function GenerateAvp(code: nat, flags: string, content: string): string
  {
    var head := HexField(code, 8) + flags;
    var length := |head + "000000" + content| / 2;
    head + HexField(length, 6) + content + Padding(length)
  }

  function GenerateVendorAvp(code: nat, flags: string, vendor: nat, content: string): string
  {
    var head := HexField(code, 8) + flags;
    var vendorField := HexField(vendor, 8);
    var length := |head + "000000" + vendorField + content| / 2;
    head + HexField(length, 6) + vendorField + content + Padding(length)
  }

  // ----------------------------------------------------------------- parsing

  /** The dictionary built for one AVP; `vendor` is `None` where the code stores ''. */
  datatype AvpRecord = AvpRecord(code: int, flags: string, length: int, vendor: Option<int>, data: string)

  /** A top-level dictionary, with its flat `sub_avps` list. */
  datatype TopRecord = TopRecord(avp: AvpRecord, subs: seq<AvpRecord>)

  predicate IsVendorFlags(flags: string)
  {
    flags == "c0" || flags == "80"
  }

  predicate IsKnownFlags(flags: string)
  {
    flags == "80" || flags == "40" || flags == "20" || flags == "00" || flags == "c0"
  }

  /** Whether a payload looks like the start of an AVP; False also where Python raises. */
  predicate ValidateSingleAvp(data: string)
  {
    var code := ParseInt(Slice(data, 0, 8), 16);
    var flags := Slice(data, 8, 10);
    var length := ParseInt(Slice(data, 10, 16), 16);
    && code.Some? && length.Some?
    && IsKnownFlags(flags)
    && |Drop(data, 16)| / 2 >= length.value - 8
  }

  /** Reads the AVP at the front of `data`; `None` where a numeric field raises. */
  function ReadAvp(data: string): Option<AvpRecord>
  {
    var code := ParseInt(Slice(data, 0, 8), 16);
    var flags := Slice(data, 8, 10);
    var length := ParseInt(Slice(data, 10, 16), 16);
    var vendor := ParseInt(Slice(data, 16, 24), 16);
    if code.None? || length.None? then None
    else if IsVendorFlags(flags) then
      if vendor.None? then None
      else Some(AvpRecord(code.value, flags, length.value, vendor, Slice(data, 24, length.value * 2)))
    else Some(AvpRecord(code.value, flags, length.value, None, Slice(data, 16, length.value * 2)))
  }

  /** What is left of `data` after an AVP of `length` bytes and its padding. */
  function SkipAvp(data: string, length: int): string
  {
    var padded := RoundUpToMultiple(length, 4);
    Drop(data, length * 2 + (padded - length) * 2)
  }

  /** A payload that holds AVPs is moved to the stack and leaves '' behind. */
  function Settled(a: AvpRecord): AvpRecord
  {
    if ValidateSingleAvp(a.data) then a.(data := "") else a
  }

  /** The stack after one round of the sub-AVP loop: children, then remaining siblings on top. */
  function Pushed(below: seq<string>, payload: string, rest: string): seq<string>
  {
    var withKids := if ValidateSingleAvp(payload) then below + [payload] else below;
    if ValidateSingleAvp(rest) then withKids + [rest] else withKids
  }

  /** What the sub-AVP loop leaves: emitted records, stack, counter, and whether it raised. */
  datatype Drained = Drained(subs: seq<AvpRecord>, stack: seq<string>, counter: nat, raised: bool)

  /** The sub-AVP loop from a state in which the stack is not empty. */
  function DrainStack(stack: seq<string>, counter: nat): (r: Drained)
    requires stack != []
    ensures counter < r.counter && (counter <= FAILSAFE ==> r.counter <= FAILSAFE + 1)
    ensures |r.subs| <= r.counter - counter
    ensures counter <= FAILSAFE ==> |r.subs| <= FAILSAFE - counter
    ensures r.raised ==> r.counter <= FAILSAFE
    decreases FAILSAFE + 1 - counter
  {
    var c := counter + 1;
    if c > FAILSAFE then Drained([], stack, c, false)
    else
      var top, below := stack[|stack| - 1], stack[..|stack| - 1];
      var read := ReadAvp(top);
      if read.None? then Drained([], below, c, true)
      else
        var a := read.value;
        var stack' := Pushed(below, a.data, SkipAvp(top, a.length));
        if stack' == [] then Drained([Settled(a)], [], c, false)
        else
          var r := DrainStack(stack', c);
          r.(subs := [Settled(a)] + r.subs)
  }

  lemma EmptyIsNoAvp()
    ensures !ValidateSingleAvp("")
  {
  }

  // ------------------------------------------------ what the parser can emit

  /** The longest payload of an AVP that declares `length` bytes, in characters. */
  function PayloadRoom(length: int, vendor: bool): int
  {
    2 * length - if vendor then 24 else 16
  }

  /** What every record of the parser satisfies, whatever it was given: fields as wide as
      the slices they are read from, a vendor id exactly under the flags c0 and 80, a payload
      no longer than declared, and no payload that would itself pass for an AVP. */
  predicate Regular(a: AvpRecord)
  {
    && a.code < 0x1_0000_0000 && |a.flags| == 2 && a.length < 0x100_0000
    && (a.vendor.Some? <==> IsVendorFlags(a.flags))
    && (a.vendor.Some? ==> a.vendor.value < 0x1_0000_0000)
    && (a.data == "" || a.length < 0 || |a.data| <= PayloadRoom(a.length, a.vendor.Some?))
    && !ValidateSingleAvp(a.data)
  }

  /** A nested record was also checked for its flags before it was read. */
  predicate RegularSub(a: AvpRecord)
  {
    Regular(a) && IsKnownFlags(a.flags)
  }

  predicate RegularRecords(records: seq<TopRecord>)
  {
    forall i :: 0 <= i < |records| ==>
      Regular(records[i].avp) && forall a :: a in records[i].subs ==> RegularSub(a)
  }

  /** Every stack entry passed for an AVP when it was pushed. */
  predicate Checked(stack: seq<string>)
  {
    forall i :: 0 <= i < |stack| ==> ValidateSingleAvp(stack[i])
  }

  lemma SliceShort(s: string, lo: nat, hi: int)
    requires hi >= 0
    ensures |Slice(s, lo, hi)| <= if lo <= hi then hi - lo else 0
  {
  }

  lemma FieldBounds(data: string)
    ensures ParseInt(Slice(data, 0, 8), 16).Some? ==> ParseInt(Slice(data, 0, 8), 16).value < 0x1_0000_0000
    ensures ParseInt(Slice(data, 10, 16), 16).Some? ==> ParseInt(Slice(data, 10, 16), 16).value < 0x100_0000
    ensures ParseInt(Slice(data, 16, 24), 16).Some? ==> ParseInt(Slice(data, 16, 24), 16).value < 0x1_0000_0000
  {
    hide ParseInt, Slice;
    HexWidths();
    SliceShort(data, 0, 8);
    SliceShort(data, 10, 16);
    SliceShort(data, 16, 24);
    if ParseInt(Slice(data, 0, 8), 16).Some? { ParseBound(Slice(data, 0, 8), 16, 8); }
    if ParseInt(Slice(data, 10, 16), 16).Some? { ParseBound(Slice(data, 10, 16), 16, 6); }
    if ParseInt(Slice(data, 16, 24), 16).Some? { ParseBound(Slice(data, 16, 24), 16, 8); }
  }

  lemma ReadIsRegular(data: string)
    requires ReadAvp(data).Some?
    ensures |ReadAvp(data).value.flags| == 2 ==> Regular(Settled(ReadAvp(data).value))
    ensures |data| >= 10 ==> |ReadAvp(data).value.flags| == 2
    ensures ValidateSingleAvp(data) ==> IsKnownFlags(ReadAvp(data).value.flags)
  {
    hide ParseInt, Slice;
    EmptyIsNoAvp();
    FieldBounds(data);
    var a := ReadAvp(data).value;
    if a.length >= 0 {
      SliceShort(data, 16, a.length * 2);
      SliceShort(data, 24, a.length * 2);
    }
  }

  lemma PushedChecked(below: seq<string>, payload: string, rest: string)
    requires Checked(below)
    ensures Checked(Pushed(below, payload, rest))
  {
    hide ValidateSingleAvp;
  }

  lemma {:induction false} DrainedRegular(stack: seq<string>, counter: nat)
    requires stack != [] && Checked(stack)
    ensures forall a :: a in DrainStack(stack, counter).subs ==> RegularSub(a)
    ensures Checked(DrainStack(stack, counter).stack)
    decreases FAILSAFE + 1 - counter
  {
    hide ValidateSingleAvp, ReadAvp, SkipAvp, Regular, Pushed;
    var c := counter + 1;
    if c <= FAILSAFE {
      var top, below := stack[|stack| - 1], stack[..|stack| - 1];
      var read := ReadAvp(top);
      if read.Some? {
        ReadIsRegular(top);
        var stack' := Pushed(below, read.value.data, SkipAvp(top, read.value.length));
        PushedChecked(below, read.value.data, SkipAvp(top, read.value.length));
        if stack' != [] { DrainedRegular(stack', c); }
      }
    }
  }

  /** The records appended by the main loop from a state (data, counter, stack). */
  function DecodeFrom(data: string, counter: nat, stack: seq<string>): (r: seq<TopRecord>)
    decreases FAILSAFE + 1 - counter
  {
    var c := counter + 1;
    if |data| <= 16 || c > FAILSAFE then []
    else
      var read := ReadAvp(data);
      if read.None? then DecodeFrom(data, c, stack)
      else
        var a := read.value;
        if !ValidateSingleAvp(a.data) then
          [TopRecord(a, [])] + DecodeFrom(SkipAvp(data, a.length), c, stack)
        else
          var d := DrainStack(stack + [a.data], c);
          if d.raised then DecodeFrom(data, d.counter, d.stack)
          else [TopRecord(Settled(a), d.subs)] + DecodeFrom(SkipAvp(data, a.length), d.counter, d.stack)
  }

  function Decode(data: string): seq<TopRecord>
  {
    if |data| < 16 then [] else DecodeFrom(data, 0, [])
  }

  /** AVPs in a decoded list, nested ones included. */
  function NodeCount(records: seq<TopRecord>): nat
  {
    if records == [] then 0 else 1 + |records[0].subs| + NodeCount(records[1..])
  }

  /** On every input, the failsafe bounds what the main loop can return. */
  lemma {:induction false} DecodeFromBounded(data: string, counter: nat, stack: seq<string>)
    ensures NodeCount(DecodeFrom(data, counter, stack)) <= if counter < FAILSAFE then FAILSAFE - counter else 0
    ensures Checked(stack) ==> RegularRecords(DecodeFrom(data, counter, stack))
    decreases FAILSAFE + 1 - counter
  {
    hide ValidateSingleAvp, ReadAvp, SkipAvp, Regular, RegularSub;
    var c := counter + 1;
    if |data| > 16 && c <= FAILSAFE {
      var read := ReadAvp(data);
      if read.None? {
        DecodeFromBounded(data, c, stack);
      } else {
        var a := read.value;
        ReadIsRegular(data);
        if !ValidateSingleAvp(a.data) {
          DecodeFromBounded(SkipAvp(data, a.length), c, stack);
        } else {
          var d := DrainStack(stack + [a.data], c);
          if Checked(stack) { DrainedRegular(stack + [a.data], c); }
          if d.raised {
            DecodeFromBounded(data, d.counter, d.stack);
          } else {
            DecodeFromBounded(SkipAvp(data, a.length), d.counter, d.stack);
            CountCons(TopRecord(Settled(a), d.subs), DecodeFrom(SkipAvp(data, a.length), d.counter, d.stack));
          }
        }
      }
    }
  }

  lemma CountCons(r: TopRecord, rest: seq<TopRecord>)
    ensures NodeCount([r] + rest) == 1 + |r.subs| + NodeCount(rest)
  {
    assert ([r] + rest)[1..] == rest;
  }

  /** On every input string, malformed or not: at most 100 AVPs, all regular. */
  lemma DecodeBounded(packet: string)
    ensures NodeCount(Decode(packet)) <= FAILSAFE
    ensures RegularRecords(Decode(packet))
  {
    DecodeFromBounded(packet, 0, []);
  }

  /** One round of the sub-AVP loop, on the popped stack entry.  `None` stands for an
      exception, which the `except` clause of the main loop swallows. */
  method SubAvpRound(below: seq<string>, entry: string) returns (sub: Option<AvpRecord>, stack: seq<string>)
    ensures sub.None? <==> ReadAvp(entry).None?
    ensures sub.None? ==> stack == below
    ensures sub.Some? ==> sub.value == Settled(ReadAvp(entry).value)
    ensures sub.Some? ==> stack == Pushed(below, ReadAvp(entry).value.data, SkipAvp(entry, ReadAvp(entry).value.length))
  {
    stack := below;
    sub := ReadAvp(entry);
    if sub.None? {
      return;
    }
    var a := sub.value;
    if ValidateSingleAvp(a.data) {
      stack := stack + [a.data];
      sub := Some(a.(data := ""));
    }
    var rest := SkipAvp(entry, a.length);
    if ValidateSingleAvp(rest) {
      stack := stack + [rest];
    }
  }

  /** The sub-AVP loop.  The stack is never popped when empty. */
  method DrainSubAvps(stack0: seq<string>, counter0: nat)
    returns (subs: seq<AvpRecord>, stack: seq<string>, counter: nat, raised: bool)
    requires stack0 != [] && counter0 <= FAILSAFE
    ensures Drained(subs, stack, counter, raised) == DrainStack(stack0, counter0)
  {
    hide ValidateSingleAvp, ReadAvp, SkipAvp;
    subs, stack, counter, raised := [], stack0, counter0, false;
    var payloadContainsSubAvps := true;
    while payloadContainsSubAvps
      invariant counter <= FAILSAFE
      invariant payloadContainsSubAvps ==> stack != []
      invariant Resumed(subs, stack, counter, payloadContainsSubAvps) == DrainStack(stack0, counter0)
      decreases FAILSAFE + 1 - counter
    {
      counter := counter + 1;
      if counter > FAILSAFE {
        assert subs + [] == subs;
        break;
      }
      var entry := stack[|stack| - 1];
      var sub: Option<AvpRecord>;
      ghost var emitted := subs;
      sub, stack := SubAvpRound(stack[..|stack| - 1], entry);
      if sub.None? {
        assert subs + [] == subs;
        raised := true;
        break;
      }
      subs := subs + [sub.value];
      if stack == [] {
        payloadContainsSubAvps := false;
      } else {
        var rest := DrainStack(stack, counter).subs;
        assert emitted + ([sub.value] + rest) == subs + rest;
      }
    }
  }

  /** The final state of the sub-AVP loop, seen from the middle of it. */
  ghost function Resumed(subs: seq<AvpRecord>, stack: seq<string>, counter: nat, more: bool): Drained
    requires more ==> stack != []
  {
    if more then var r := DrainStack(stack, counter); r.(subs := subs + r.subs)
    else Drained(subs, stack, counter, false)
  }

  /** The parser: the main loop over top-level AVPs. */
  method DecodeAvpPacket(packet: string) returns (processed: seq<TopRecord>)
    ensures processed == Decode(packet)
    ensures NodeCount(processed) <= FAILSAFE
    ensures RegularRecords(processed)
  {
    hide ValidateSingleAvp, ReadAvp, SkipAvp, DrainStack, NodeCount, RegularRecords;
    var data, counter := packet, 0;
    processed := [];
    if |data| < 16 {
      DecodeBounded(packet);
      return;
    }
    var stack: seq<string> := [];
    while |data| > 16
      invariant counter <= FAILSAFE + 1
      invariant processed + DecodeFrom(data, counter, stack) == DecodeFrom(packet, 0, [])
      decreases FAILSAFE + 2 - counter
    {
      counter := counter + 1;
      if counter > FAILSAFE {
        break;
      }
      var read := ReadAvp(data);
      if read.None? {
        continue;
      }
      var avp := read.value;
      var subs: seq<AvpRecord> := [];
      if ValidateSingleAvp(avp.data) {
        var raised;
        subs, stack, counter, raised := DrainSubAvps(stack + [avp.data], counter);
        if raised {
          continue;
        }
        avp := avp.(data := "");
      }
      ghost var emitted := processed;
      processed := processed + [TopRecord(avp, subs)];
      data := SkipAvp(data, avp.length);
      assert emitted + ([TopRecord(avp, subs)] + DecodeFrom(data, counter, stack)) == processed + DecodeFrom(data, counter, stack);
    }
    assert processed == DecodeFrom(packet, 0, []);
    DecodeBounded(packet);
  }
}
