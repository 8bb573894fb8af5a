/** AVP trees, their printed form, and the proof that `decodeAvpPacket` reads them back. */
module AvpForest {
  import opened PyText
  import opened AvpCodec

  /** The vendor id of 3GPP. */
  const VENDOR_3GPP: nat := 10415

  /** An AVP as the callers of the printer think of it.  A group prints its children
      into its payload; a leaf carries hex text. */
  datatype Avp =
    | Leaf(code: nat, flags: string, vendor: Option<nat>, payload: string)
    | Group(code: nat, flags: string, vendor: Option<nat>, kids: seq<Avp>)

  function Kids(a: Avp): seq<Avp>
  {
    if a.Group? then a.kids else []
  }

  function Print(code: nat, flags: string, vendor: Option<nat>, content: string): string
  {
    if vendor.Some? then GenerateVendorAvp(code, flags, vendor.value, content)
    else GenerateAvp(code, flags, content)
  }

  function Content(a: Avp): string
    decreases a, 0
  {
    match a
    case Leaf(_, _, _, payload) => payload
    case Group(_, _, _, kids) => EncodeForest(kids)
  }

  function EncodeAvp(a: Avp): string
    decreases a, 1
  {
    Print(a.code, a.flags, a.vendor, Content(a))
  }

  function EncodeForest(f: seq<Avp>): string
    decreases f
  {
    if f == [] then "" else EncodeAvp(f[0]) + EncodeForest(f[1..])
  }

  function HeaderBytes(a: Avp): nat
  {
    if a.vendor.Some? then 12 else 8
  }

  /** The AVP Length field: header and payload, without padding. */
  function ByteLength(a: Avp): nat
  {
    HeaderBytes(a) + |Content(a)| / 2
  }

  /** The field widths of section 4.1 of RFC 6733, and a vendor id exactly where the parser looks for one. */
  predicate HeaderFits(a: Avp)
  {
    && a.code < 0x1_0000_0000
    && |a.flags| == 2
    && (a.vendor.Some? <==> IsVendorFlags(a.flags))
    && (a.vendor.Some? ==> a.vendor.value < 0x1_0000_0000)
    && ByteLength(a) < 0x100_0000
  }

  /** Readable AVPs: fields in range, whole-byte leaf payloads, and below the top only flags that
      the parser knows. */
  predicate WellFormed(a: Avp)
  {
    && HeaderFits(a)
    && (a.Leaf? ==> |a.payload| % 2 == 0)
    && (a.Group? ==> forall k :: k in a.kids ==> WellFormed(k) && IsKnownFlags(k.flags))
  }

  /** No leaf payload would be taken for a group. */
  predicate Transparent(a: Avp)
  {
    match a
    case Leaf(_, _, _, payload) => !ValidateSingleAvp(payload)
    case Group(_, _, _, kids) => forall k :: k in kids ==> Transparent(k)
  }

  predicate Good(a: Avp)
  {
    WellFormed(a) && Transparent(a)
  }

  predicate GoodForest(f: seq<Avp>)
  {
    forall a :: a in f ==> Good(a)
  }

  /** AVPs that stand inside a group. */
  predicate GoodSiblings(f: seq<Avp>)
  {
    forall a :: a in f ==> Good(a) && IsKnownFlags(a.flags)
  }

  // -------------------------------------------------------- one printed AVP

  /** The record that should come back for `a`. */
  function RecordOf(a: Avp): AvpRecord
  {
    AvpRecord(a.code, a.flags, ByteLength(a), a.vendor, if a.Leaf? then a.payload else "")
  }

  function Header(a: Avp): string
  {
    HexField(a.code, 8) + a.flags + HexField(ByteLength(a), 6)
    + if a.vendor.Some? then HexField(a.vendor.value, 8) else ""
  }

  lemma FieldsRead(a: Avp)
    requires HeaderFits(a)
    ensures |HexField(a.code, 8)| == 8 && ParseInt(HexField(a.code, 8), 16) == Some(a.code)
    ensures |HexField(ByteLength(a), 6)| == 6 && ParseInt(HexField(ByteLength(a), 6), 16) == Some(ByteLength(a))
    ensures a.vendor.Some? ==>
      |HexField(a.vendor.value, 8)| == 8 && ParseInt(HexField(a.vendor.value, 8), 16) == a.vendor
  {
    hide HexField, ParseInt, ByteLength;
    HexWidths();
    HexFieldReads(a.code, 8);
    HexFieldReads(ByteLength(a), 6);
    if a.vendor.Some? { HexFieldReads(a.vendor.value, 8); }
  }

  lemma {:induction false} ForestAligned(f: seq<Avp>)
    requires forall a :: a in f ==> WellFormed(a)
    ensures |EncodeForest(f)| % 8 == 0
    decreases f, 0
  {
    hide EncodeAvp, WellFormed;
    hide RoundUpToMultiple;
    if f != [] {
      assert f[0] in f;
      AvpAligned(f[0]);
      ForestAligned(f[1..]);
      EightSum(|EncodeAvp(f[0])|, |EncodeForest(f[1..])|);
    }
  }

  lemma ContentEven(a: Avp)
    requires WellFormed(a)
    ensures |Content(a)| % 2 == 0
    decreases a, 1
  {
    hide EncodeForest, HeaderFits;
    if a.Group? {
      ForestAligned(a.kids);
      EightIsEven(|EncodeForest(a.kids)|);
    }
  }

  lemma HeaderOf(a: Avp)
    requires WellFormed(a)
    ensures HeaderFits(a) && |a.flags| == 2
    ensures a.vendor.Some? <==> IsVendorFlags(a.flags)
  {
  }

  lemma VendorAvpShape(code: nat, flags: string, vendor: nat, content: string, length: nat)
    requires |HexField(code, 8)| == 8 && |flags| == 2 && |HexField(vendor, 8)| == 8
    requires |content| % 2 == 0 && length == 12 + |content| / 2
    ensures GenerateVendorAvp(code, flags, vendor, content)
      == HexField(code, 8) + flags + HexField(length, 6) + HexField(vendor, 8) + content + Padding(length)
  {
    hide HexField, Padding;
    var head := HexField(code, 8) + flags;
    assert |head + "000000" + HexField(vendor, 8) + content| == 24 + |content|;
  }

  lemma PlainAvpShape(code: nat, flags: string, content: string, length: nat)
    requires |HexField(code, 8)| == 8 && |flags| == 2
    requires |content| % 2 == 0 && length == 8 + |content| / 2
    ensures GenerateAvp(code, flags, content)
      == HexField(code, 8) + flags + HexField(length, 6) + "" + content + Padding(length)
  {
    hide HexField, Padding;
    var head := HexField(code, 8) + flags;
    assert |head + "000000" + content| == 16 + |content|;
    assert head + HexField(length, 6) + "" == head + HexField(length, 6);
  }

  lemma WholeWords(n: nat)
    ensures RoundUpToMultiple(n, 4) >= n && 2 * RoundUpToMultiple(n, 4) % 8 == 0
  {
    var q := (n + 3) / 4;
    assert 2 * (q * 4) == 8 * q;
  }

  /** A printed AVP: header, payload, then zero padding up to a multiple of four bytes. */
  lemma AvpAligned(a: Avp)
    requires WellFormed(a)
    ensures EncodeAvp(a) == Header(a) + Content(a) + Padding(ByteLength(a))
    ensures |Header(a)| == 2 * HeaderBytes(a)
    ensures |EncodeAvp(a)| == 2 * RoundUpToMultiple(ByteLength(a), 4)
    ensures |EncodeAvp(a)| % 8 == 0
    ensures forall i :: 2 * ByteLength(a) <= i < |EncodeAvp(a)| ==> EncodeAvp(a)[i] == '0'
    decreases a, 2
  {
    hide HexField, Padding, Content, WellFormed, GenerateAvp, GenerateVendorAvp, ParseInt, HeaderFits, RoundUpToMultiple;
    HeaderOf(a);
    WholeWords(ByteLength(a));
    ContentEven(a);
    FieldsRead(a);
    if a.vendor.Some? {
      VendorAvpShape(a.code, a.flags, a.vendor.value, Content(a), ByteLength(a));
    } else {
      PlainAvpShape(a.code, a.flags, Content(a), ByteLength(a));
    }
  }

  /** The slices that the parser takes of header text. */
  lemma HeaderSlices(c: string, fl: string, l: string, v: string, t: string)
    requires |c| == 8 && |fl| == 2 && |l| == 6
    ensures var s := c + fl + l + v + t;
      && Slice(s, 0, 8) == c && Slice(s, 8, 10) == fl && Slice(s, 10, 16) == l
      && (|v| == 8 ==> Slice(s, 16, 24) == v)
  {
  }

  lemma PayloadSlices(h: string, c: string, p: string, t: string)
    ensures var s := h + c + p + t;
      && s == h + (c + p + t)
      && Slice(s, |h|, |h| + |c|) == c && Drop(s, |h| + |c| + |p|) == t
      && (|h| >= 16 ==> |Drop(s, 16)| == |s| - 16)
  {
  }

  /** What the parser's slices of a printed AVP hold. */
  lemma EncodedSlices(a: Avp, t: string)
    requires WellFormed(a)
    ensures var s := EncodeAvp(a) + t;
      && Slice(s, 0, 8) == HexField(a.code, 8)
      && Slice(s, 8, 10) == a.flags
      && Slice(s, 10, 16) == HexField(ByteLength(a), 6)
      && (a.vendor.Some? ==> Slice(s, 16, 24) == HexField(a.vendor.value, 8))
      && Slice(s, 2 * HeaderBytes(a), 2 * ByteLength(a)) == Content(a)
      && Drop(s, 2 * RoundUpToMultiple(ByteLength(a), 4)) == t
      && |Drop(s, 16)| / 2 >= ByteLength(a) - 8
  {
    hide HexField, ParseInt, Padding, Content, EncodeAvp, WellFormed, Slice, Drop, HeaderFits;
    HeaderOf(a);
    AvpAligned(a);
    ContentEven(a);
    FieldsRead(a);
    var c, l := HexField(a.code, 8), HexField(ByteLength(a), 6);
    var v := if a.vendor.Some? then HexField(a.vendor.value, 8) else "";
    PayloadSlices(Header(a), Content(a), Padding(ByteLength(a)), t);
    HeaderSlices(c, a.flags, l, v, Content(a) + Padding(ByteLength(a)) + t);
  }

  /** Printing then reading one AVP, whatever follows it. */
  lemma ReadEncoded(a: Avp, t: string)
    requires WellFormed(a)
    ensures ReadAvp(EncodeAvp(a) + t) == Some(AvpRecord(a.code, a.flags, ByteLength(a), a.vendor, Content(a)))
    ensures SkipAvp(EncodeAvp(a) + t, ByteLength(a)) == t
    ensures ValidateSingleAvp(EncodeAvp(a) + t) <==> IsKnownFlags(a.flags)
  {
    hide HexField, ParseInt, Content, EncodeAvp, WellFormed, Slice, Drop, ByteLength, HeaderFits;
    HeaderOf(a);
    EncodedSlices(a, t);
    FieldsRead(a);
  }

  /** A payload passes for an AVP exactly where the tree has children. */
  lemma ContentLooksLikeGroup(a: Avp)
    requires Good(a)
    ensures ValidateSingleAvp(Content(a)) <==> Kids(a) != []
  {
    hide ValidateSingleAvp, EncodeAvp, HeaderFits;
    EmptyIsNoAvp();
    if Kids(a) != [] {
      assert a.kids[0] in a.kids;
      ReadEncoded(a.kids[0], EncodeForest(a.kids[1..]));
    }
  }

  /** Siblings are left to read exactly where text is left. */
  lemma ForestLooksLikeAvp(f: seq<Avp>)
    requires GoodSiblings(f)
    ensures ValidateSingleAvp(EncodeForest(f)) <==> f != []
  {
    hide ValidateSingleAvp, EncodeAvp, WellFormed;
    if f == [] {
      EmptyIsNoAvp();
    } else {
      assert Good(f[0]);
      ReadEncoded(f[0], EncodeForest(f[1..]));
    }
  }

  lemma {:induction false} EncodeConcat(f: seq<Avp>, g: seq<Avp>)
    ensures EncodeForest(f + g) == EncodeForest(f) + EncodeForest(g)
  {
    hide EncodeAvp;
    if f == [] {
      assert f + g == g;
    } else {
      EncodeConcat(f[1..], g);
      ConcatTail(f, g);
      Assoc(EncodeAvp(f[0]), EncodeForest(f[1..]), EncodeForest(g));
    }
  }

  lemma EncodeNothing()
    ensures EncodeForest([]) == ""
  {
  }

  lemma EncodeSingle(a: Avp)
    ensures EncodeForest([a]) == EncodeAvp(a)
  {
    hide EncodeAvp;
    assert [a][1..] == [];
    assert EncodeForest([]) == "";
  }

  lemma EncodePair(a: Avp, b: Avp)
    ensures EncodeForest([a] + [b]) == EncodeAvp(a) + EncodeAvp(b)
  {
    hide EncodeForest, EncodeAvp;
    EncodeConcat([a], [b]);
    EncodeSingle(a);
    EncodeSingle(b);
  }

  /** Field values in range, at every node, whatever the lengths come to. */
  predicate FieldsFit(a: Avp)
  {
    && a.code < 0x1_0000_0000
    && |a.flags| == 2
    && (a.vendor.Some? <==> IsVendorFlags(a.flags))
    && (a.vendor.Some? ==> a.vendor.value < 0x1_0000_0000)
    && (a.Leaf? ==> |a.payload| % 2 == 0)
    && (a.Group? ==> forall k :: k in a.kids ==> FieldsFit(k) && IsKnownFlags(k.flags))
  }

  lemma EncodedCoversContent(a: Avp)
    ensures |EncodeAvp(a)| >= |Content(a)|
    ensures |a.flags| == 2 ==> |EncodeAvp(a)| >= 2 * HeaderBytes(a) + |Content(a)|
  {
    hide HexField, Padding, Content;
  }

  lemma ContentOfGroup(a: Avp)
    requires a.Group?
    ensures Content(a) == EncodeForest(a.kids)
  {
  }

  lemma ContentOfLeaf(a: Avp)
    requires a.Leaf?
    ensures Content(a) == a.payload
  {
  }

  lemma {:induction false} EncodedCoversMember(f: seq<Avp>, a: Avp)
    requires a in f
    ensures |EncodeForest(f)| >= |EncodeAvp(a)|
  {
    hide EncodeAvp;
    if a != f[0] { EncodedCoversMember(f[1..], a); }
  }

  /** Only the length of the outermost AVP has to be checked. */
  lemma {:induction false} LengthSuffices(a: Avp)
    requires FieldsFit(a)
    ensures WellFormed(a) <==> ByteLength(a) < 0x100_0000
  {
    hide EncodeForest, EncodeAvp;
    if a.Group? && ByteLength(a) < 0x100_0000 {
      forall k | k in a.kids ensures WellFormed(k) {
        EncodedCoversMember(a.kids, k);
        EncodedCoversContent(k);
        LengthSuffices(k);
      }
    }
  }

  // ----------------------------------------------------- the flattening order

  /** The order in which the sub-AVP loop emits a list of siblings and all their
      descendants: an AVP, then its later siblings, then its children. */
  function Flat(f: seq<Avp>): seq<Avp>
    decreases f
  {
    if f == [] then [] else [f[0]] + (Flat(f[1..]) + if f[0].Group? then Flat(f[0].kids) else [])
  }

  function Records(f: seq<Avp>): (r: seq<AvpRecord>)
    ensures |r| == |f| && forall i :: 0 <= i < |f| ==> r[i] == RecordOf(f[i])
  {
    seq(|f|, i requires 0 <= i < |f| => RecordOf(f[i]))
  }

  /** A stack of sibling lists still to be read; the last one is on top. */
  function StackFlat(stack: seq<seq<Avp>>): seq<Avp>
  {
    if stack == [] then [] else Flat(stack[|stack| - 1]) + StackFlat(stack[..|stack| - 1])
  }

  function EncodeStack(stack: seq<seq<Avp>>): (r: seq<string>)
    ensures |r| == |stack| && forall i :: 0 <= i < |stack| ==> r[i] == EncodeForest(stack[i])
  {
    seq(|stack|, i requires 0 <= i < |stack| => EncodeForest(stack[i]))
  }

  predicate GoodStack(stack: seq<seq<Avp>>)
  {
    forall i :: 0 <= i < |stack| ==> stack[i] != [] && GoodSiblings(stack[i])
  }

  /** A list of siblings is pushed only if there is something in it. */
  function PushIf(stack: seq<seq<Avp>>, f: seq<Avp>): seq<seq<Avp>>
  {
    if f == [] then stack else stack + [f]
  }

  /** The stack of sibling lists after one round of the loop: children, then siblings on top. */
  function NextStack(stack: seq<seq<Avp>>): seq<seq<Avp>>
    requires stack != [] && stack[|stack| - 1] != []
  {
    var top, below := stack[|stack| - 1], stack[..|stack| - 1];
    PushIf(PushIf(below, Kids(top[0])), top[1..])
  }

  lemma StackFlatPush(stack: seq<seq<Avp>>, f: seq<Avp>)
    ensures StackFlat(stack + [f]) == Flat(f) + StackFlat(stack)
    ensures StackFlat(PushIf(stack, f)) == Flat(f) + StackFlat(stack)
  {
    assert (stack + [f])[..|stack|] == stack;
    FlatEmpty();
    assert [] + StackFlat(stack) == StackFlat(stack);
  }

  lemma NextStackFlat(stack: seq<seq<Avp>>)
    requires stack != [] && stack[|stack| - 1] != []
    ensures StackFlat(stack) == [stack[|stack| - 1][0]] + StackFlat(NextStack(stack))
  {
    hide StackFlat, Flat, PushIf, Kids;
    var top, below := stack[|stack| - 1], stack[..|stack| - 1];
    var x, rest := top[0], top[1..];
    assert stack == below + [top];
    StackFlatPush(below, top);
    FlatUnfold(top);
    StackFlatPush(below, Kids(x));
    StackFlatPush(PushIf(below, Kids(x)), rest);
    Reassociate(x, Flat(rest), Flat(Kids(x)), StackFlat(below));
  }

  lemma FlatUnfold(f: seq<Avp>)
    requires f != []
    ensures Flat(f) == [f[0]] + (Flat(f[1..]) + Flat(Kids(f[0])))
  {
    FlatEmpty();
  }

  lemma Reassociate(x: Avp, a: seq<Avp>, b: seq<Avp>, c: seq<Avp>)
    ensures ([x] + (a + b)) + c == [x] + (a + (b + c))
  {
  }

  lemma NextStackGood(stack: seq<seq<Avp>>)
    requires stack != [] && GoodStack(stack)
    ensures stack[|stack| - 1] != [] && GoodStack(NextStack(stack))
  {
    hide WellFormed, Transparent;
    var top := stack[|stack| - 1];
    assert Good(top[0]) by { assert top[0] in top; }
    GoodKids(top[0]);
  }

  lemma GoodKids(a: Avp)
    requires Good(a)
    ensures GoodSiblings(Kids(a))
  {
  }

  lemma EncodePush(stack: seq<seq<Avp>>, f: seq<Avp>)
    ensures EncodeStack(PushIf(stack, f)) == if f == [] then EncodeStack(stack) else EncodeStack(stack) + [EncodeForest(f)]
  {
    hide EncodeForest;
  }

  /** One round on the printed stack is one round on the stack of trees. */
  lemma RoundOnEncoded(stack: seq<seq<Avp>>)
    requires stack != [] && GoodStack(stack)
    ensures var top := EncodeStack(stack)[|stack| - 1];
      var a := stack[|stack| - 1][0];
      && ReadAvp(top).Some?
      && Settled(ReadAvp(top).value) == RecordOf(a)
      && Pushed(EncodeStack(stack)[..|stack| - 1], ReadAvp(top).value.data, SkipAvp(top, ReadAvp(top).value.length))
        == EncodeStack(NextStack(stack))
  {
    hide ReadAvp, ValidateSingleAvp, SkipAvp, EncodeAvp, WellFormed, Transparent, HeaderFits, ByteLength;
    var f := stack[|stack| - 1];
    var x, rest := f[0], f[1..];
    assert Good(x) by { assert x in f; }
    ReadEncoded(x, EncodeForest(rest));
    ContentLooksLikeGroup(x);
    ForestLooksLikeAvp(rest);
    GoodKids(x);
    var below := stack[..|stack| - 1];
    assert EncodeStack(stack)[..|stack| - 1] == EncodeStack(below);
    EncodePush(below, Kids(x));
    EncodePush(PushIf(below, Kids(x)), rest);
  }

  /** The explicit-stack loop refines the recursive flattening: it emits `StackFlat` in
      order, cut off only by the failsafe, never raises, and ends with an empty stack. */
  lemma {:induction false} DrainRefinesFlat(stack: seq<seq<Avp>>, counter: nat)
    requires stack != [] && GoodStack(stack) && counter <= FAILSAFE
    ensures var all := Records(StackFlat(stack));
      var r := DrainStack(EncodeStack(stack), counter);
      if counter + |all| <= FAILSAFE then r == Drained(all, [], counter + |all|, false)
      else !r.raised && r.subs == all[..FAILSAFE - counter] && r.counter == FAILSAFE + 1
    decreases FAILSAFE - counter
  {
    hide ReadAvp, ValidateSingleAvp, SkipAvp, GoodStack, NextStack, Pushed, Settled, StackFlat, RecordOf;
    var c := counter + 1;
    NextStackGood(stack);
    NextStackFlat(stack);
    var all := Records(StackFlat(stack));
    var next := NextStack(stack);
    var tail := Records(StackFlat(next));
    var first := RecordOf(stack[|stack| - 1][0]);
    assert all == [first] + tail;
    if c <= FAILSAFE {
      RoundOnEncoded(stack);
      if next == [] {
        assert tail == [] by { EmptyStackFlat(); }
      } else {
        DrainRefinesFlat(next, c);
        if c + |tail| > FAILSAFE {
          assert all[..FAILSAFE - counter] == [first] + tail[..FAILSAFE - c];
        }
      }
    }
  }

  lemma EmptyStackFlat()
    ensures StackFlat([]) == []
  {
  }

  // ------------------------------------------------------------ whole packets

  /** A bare eight-byte header: the main loop stops before a last AVP of this shape. */
  predicate IsBare(a: Avp)
  {
    a.vendor.None? && Content(a) == ""
  }

  predicate EndsBare(f: seq<Avp>)
  {
    f != [] && IsBare(f[|f| - 1])
  }

  /** The records that a faithful parser returns. */
  function TopRecords(f: seq<Avp>): seq<TopRecord>
  {
    if f == [] then [] else [TopRecord(RecordOf(f[0]), Records(Flat(Kids(f[0]))))] + TopRecords(f[1..])
  }

  /** What this parser returns: it stops after `budget` AVPs, and at a last bare header. */
  function Expected(f: seq<Avp>, budget: nat): seq<TopRecord>
  {
    if f == [] || budget == 0 || (|f| == 1 && IsBare(f[0])) then []
    else
      var subs := Records(Flat(Kids(f[0])));
      if 1 + |subs| <= budget then [TopRecord(RecordOf(f[0]), subs)] + Expected(f[1..], budget - 1 - |subs|)
      else [TopRecord(RecordOf(f[0]), subs[..budget - 1])]
  }

  lemma ForestTextLength(f: seq<Avp>)
    requires f != [] && forall a :: a in f ==> WellFormed(a)
    ensures |EncodeForest(f)| >= 16
    ensures |EncodeForest(f)| == 16 <==> |f| == 1 && IsBare(f[0])
  {
    hide EncodeAvp, WellFormed;
    AvpTextLength(f[0]);
    ForestAligned(f[1..]);
    if |f| > 1 { AvpTextLength(f[1]); }
  }

  lemma AvpTextLength(a: Avp)
    requires WellFormed(a)
    ensures |EncodeAvp(a)| >= 16
    ensures |EncodeAvp(a)| == 16 <==> IsBare(a)
  {
    hide EncodeAvp, HeaderFits, Content, WellFormed;
    AvpAligned(a);
    ContentEven(a);
  }

  /** One round of the main loop on a printed AVP without children. */
  lemma LeafRound(f: seq<Avp>, counter: nat)
    requires GoodForest(f) && f != [] && Kids(f[0]) == [] && counter < FAILSAFE && |EncodeForest(f)| > 16
    ensures DecodeFrom(EncodeForest(f), counter, [])
      == [TopRecord(RecordOf(f[0]), [])] + DecodeFrom(EncodeForest(f[1..]), counter + 1, [])
  {
    hide ReadAvp, ValidateSingleAvp, SkipAvp, WellFormed, Transparent, EncodeAvp, RecordOf, DrainStack, ByteLength;
    assert Good(f[0]) by { assert f[0] in f; }
    ReadEncoded(f[0], EncodeForest(f[1..]));
    ContentLooksLikeGroup(f[0]);
    SettledRecord(f[0]);
  }

  /** One round of the main loop on a printed group. */
  lemma GroupRound(f: seq<Avp>, counter: nat)
    requires GoodForest(f) && f != [] && Kids(f[0]) != [] && counter < FAILSAFE && |EncodeForest(f)| > 16
    ensures var d := DrainStack([] + [EncodeForest(f[0].kids)], counter + 1);
      d.raised || DecodeFrom(EncodeForest(f), counter, [])
               == [TopRecord(RecordOf(f[0]), d.subs)] + DecodeFrom(EncodeForest(f[1..]), d.counter, d.stack)
  {
    hide ReadAvp, ValidateSingleAvp, SkipAvp, WellFormed, Transparent, EncodeAvp, RecordOf, DrainStack, ByteLength, Settled;
    assert Good(f[0]) by { assert f[0] in f; }
    ReadEncoded(f[0], EncodeForest(f[1..]));
    ContentLooksLikeGroup(f[0]);
    SettledRecord(f[0]);
  }

  /** The main loop on printed AVPs, from any counter value. */
  lemma {:induction false} DecodesForest(f: seq<Avp>, counter: nat)
    requires GoodForest(f) && counter <= FAILSAFE
    ensures DecodeFrom(EncodeForest(f), counter, []) == Expected(f, FAILSAFE - counter)
    decreases |f|
  {
    hide DecodeFrom, Good, EncodeForest, RecordOf, DrainStack, Flat, IsBare;
    if f == [] || counter == FAILSAFE {
      NothingToDo(f, counter);
    } else {
      GoodTextLength(f);
      if |EncodeForest(f)| == 16 {
        NothingToDo(f, counter);
      } else if Kids(f[0]) == [] {
        LeafRound(f, counter);
        FlatEmpty();
        DecodesForest(f[1..], counter + 1);
      } else {
        assert Good(f[0]) by { assert f[0] in f; }
        GoodKids(f[0]);
        GroupRound(f, counter);
        DrainsOne(f[0].kids, counter + 1);
        var n := |Flat(f[0].kids)|;
        if counter + 1 + n <= FAILSAFE {
          DecodesForest(f[1..], counter + 1 + n);
        } else {
          OutOfBudget(EncodeForest(f[1..]), DrainStack([] + [EncodeForest(f[0].kids)], counter + 1).stack);
        }
      }
    }
  }

  lemma NothingToDo(f: seq<Avp>, counter: nat)
    requires f == [] || |EncodeForest(f)| <= 16 || counter >= FAILSAFE
    ensures DecodeFrom(EncodeForest(f), counter, []) == []
  {
    hide ReadAvp, EncodeAvp;
  }

  lemma OutOfBudget(data: string, stack: seq<string>)
    ensures DecodeFrom(data, FAILSAFE + 1, stack) == []
  {
  }

  lemma GoodTextLength(f: seq<Avp>)
    requires f != [] && GoodForest(f)
    ensures |EncodeForest(f)| >= 16 && (|EncodeForest(f)| == 16 <==> |f| == 1 && IsBare(f[0]))
  {
    hide EncodeForest, WellFormed, Transparent;
    ForestTextLength(f);
  }

  lemma FlatEmpty()
    ensures Flat([]) == []
  {
  }

  lemma SettledRecord(a: Avp)
    requires Good(a)
    ensures Settled(AvpRecord(a.code, a.flags, ByteLength(a), a.vendor, Content(a))) == RecordOf(a)
  {
    hide ValidateSingleAvp, EncodeForest, WellFormed, Transparent, ByteLength;
    ContentLooksLikeGroup(a);
    EncodeNothing();
  }

  /** The stack loop started on the payload of one group. */
  lemma DrainsOne(kids: seq<Avp>, counter: nat)
    requires kids != [] && GoodSiblings(kids) && counter <= FAILSAFE
    ensures var all := Records(Flat(kids));
      var r := DrainStack([] + [EncodeForest(kids)], counter);
      if counter + |all| <= FAILSAFE then r == Drained(all, [], counter + |all|, false)
      else !r.raised && r.subs == all[..FAILSAFE - counter] && r.counter == FAILSAFE + 1
  {
    hide DrainStack, Flat, EncodeForest, WellFormed, Transparent, RecordOf;
    var stack := [kids];
    assert EncodeStack(stack) == [] + [EncodeForest(kids)];
    StackFlatPush([], kids);
    assert [] + stack == stack;
    assert StackFlat(stack) == Flat(kids) by {
      assert [] + [kids] == stack;
      EmptyStackFlat();
    }
    DrainRefinesFlat(stack, counter);
  }

  /** Parsing printed AVPs, without any bound on their number: the parser returns the
      first 100 AVPs in the order of `Flat`, and drops a last bare header. */
  lemma DecodeOfEncode(f: seq<Avp>)
    requires GoodForest(f)
    ensures Decode(EncodeForest(f)) == Expected(f, FAILSAFE)
  {
    hide DecodeFrom, WellFormed, Transparent, Expected;
    DecodesForest(f, 0);
    if f != [] { ForestTextLength(f); } else { ExpectedNothing(); }
  }

  lemma ExpectedNothing()
    ensures Expected([], FAILSAFE) == []
  {
  }

  lemma {:induction false} ExpectedIsFaithful(f: seq<Avp>, budget: nat)
    requires |Flat(f)| <= budget && !EndsBare(f)
    ensures Expected(f, budget) == TopRecords(f)
    decreases |f|
  {
    hide RecordOf;
    if f != [] {
      FlatEmpty();
      ExpectedIsFaithful(f[1..], budget - 1 - |Flat(Kids(f[0]))|);
    }
  }

  lemma {:induction false} BareIsLost(f: seq<Avp>, budget: nat)
    requires EndsBare(f)
    ensures |Expected(f, budget)| < |f|
    decreases |f|
  {
    hide RecordOf, Flat;
    if |f| > 1 {
      var subs := Records(Flat(Kids(f[0])));
      if 1 + |subs| <= budget { BareIsLost(f[1..], budget - 1 - |subs|); }
    }
  }

  lemma {:induction false} TopRecordsCount(f: seq<Avp>)
    ensures |TopRecords(f)| == |f| && NodeCount(TopRecords(f)) == |Flat(f)|
  {
    hide RecordOf;
    if f != [] {
      FlatEmpty();
      TopRecordsCount(f[1..]);
      CountCons(TopRecord(RecordOf(f[0]), Records(Flat(Kids(f[0])))), TopRecords(f[1..]));
    }
  }

  lemma {:induction false} TopRecordsAt(f: seq<Avp>, i: nat)
    requires i < |f|
    ensures i < |TopRecords(f)|
    ensures TopRecords(f)[i] == TopRecord(RecordOf(f[i]), Records(Flat(Kids(f[i]))))
  {
    hide RecordOf, Flat;
    if i > 0 { TopRecordsAt(f[1..], i - 1); }
  }

  lemma RegularNode(a: Avp)
    requires Regular(RecordOf(a)) && GoodSiblings(Kids(a))
    ensures Good(a)
  {
    hide ValidateSingleAvp, EncodeForest;
  }

  lemma KnownSub(a: Avp)
    requires RegularSub(RecordOf(a))
    ensures IsKnownFlags(a.flags)
  {
    hide Regular, EncodeForest;
  }

  lemma {:induction false} RegularSiblings(f: seq<Avp>)
    requires forall n :: n in Flat(f) ==> RegularSub(RecordOf(n))
    ensures GoodSiblings(f)
    decreases f
  {
    hide Regular, RecordOf, Good, Flat;
    if f != [] {
      FlatUnfold(f);
      assert f[0] in Flat(f);
      RegularSiblings(f[1..]);
      if f[0].Group? { RegularSiblings(f[0].kids); }
      RegularNode(f[0]);
      assert IsKnownFlags(f[0].flags) by { KnownSub(f[0]); }
    }
  }

  lemma RegularTree(a: Avp)
    requires Regular(RecordOf(a)) && forall r :: r in Records(Flat(Kids(a))) ==> RegularSub(r)
    ensures Good(a)
  {
    hide Regular, RecordOf, Good, Flat, RegularSub;
    forall n | n in Flat(Kids(a)) ensures RegularSub(RecordOf(n)) {
      var k :| 0 <= k < |Flat(Kids(a))| && Flat(Kids(a))[k] == n;
      assert Records(Flat(Kids(a)))[k] == RecordOf(n);
    }
    RegularSiblings(Kids(a));
    RegularNode(a);
  }

  /** Trees whose records the parser could emit are good: no other trees can be read back. */
  lemma RegularMeansGood(f: seq<Avp>)
    requires RegularRecords(TopRecords(f))
    ensures GoodForest(f)
  {
    hide Regular, RecordOf, TopRecords, Good, Flat, RegularSub, Kids;
    forall a | a in f ensures Good(a) {
      var i :| 0 <= i < |f| && f[i] == a;
      TopRecordsAt(f, i);
      RegularTree(a);
    }
  }

  /** For every list of AVPs: printing and parsing gives all of them back exactly when fields
      fit their widths, vendor ids stand exactly under the flags c0 and 80, nested flags are
      known, payloads are whole bytes, no leaf passes for a group, there are at most 100 AVPs,
      and the packet does not end in a bare header. */
  lemma RoundTripIff(f: seq<Avp>)
    ensures Decode(EncodeForest(f)) == TopRecords(f) <==> GoodForest(f) && |Flat(f)| <= FAILSAFE && !EndsBare(f)
  {
    hide Decode, Good, Expected, RegularRecords, NodeCount, Flat, TopRecords, IsBare;
    TopRecordsCount(f);
    DecodeBounded(EncodeForest(f));
    if GoodForest(f) {
      DecodeOfEncode(f);
      if EndsBare(f) {
        BareIsLost(f, FAILSAFE);
      } else if |Flat(f)| <= FAILSAFE {
        ExpectedIsFaithful(f, FAILSAFE);
      }
    } else if RegularRecords(TopRecords(f)) {
      RegularMeansGood(f);
      assert false;
    }
  }

  /** One round of the main loop on a printed AVP with room for all of it, whatever follows. */
  lemma RoundBefore(a: Avp, rest: string, counter: nat)
    requires Good(a) && counter + 1 + |Flat(Kids(a))| <= FAILSAFE && |EncodeAvp(a) + rest| > 16
    ensures DecodeFrom(EncodeAvp(a) + rest, counter, [])
      == [TopRecord(RecordOf(a), Records(Flat(Kids(a))))] + DecodeFrom(rest, counter + 1 + |Flat(Kids(a))|, [])
  {
    hide ReadAvp, ValidateSingleAvp, SkipAvp, WellFormed, Transparent, EncodeAvp, RecordOf, DrainStack, ByteLength, Settled, Flat;
    ReadEncoded(a, rest);
    ContentLooksLikeGroup(a);
    SettledRecord(a);
    if Kids(a) == [] {
      FlatEmpty();
      PlainSettled(a);
    } else {
      GoodKids(a);
      ContentOfGroup(a);
      DrainsOne(Kids(a), counter + 1);
    }
  }

  lemma PlainSettled(a: Avp)
    requires Good(a) && Kids(a) == []
    ensures RecordOf(a) == AvpRecord(a.code, a.flags, ByteLength(a), a.vendor, Content(a))
  {
    hide ValidateSingleAvp, ByteLength, WellFormed;
    EncodeNothing();
  }

  /** From text that cannot be read, or is too short, nothing more comes. */
  lemma {:induction false} NothingFrom(t: string, counter: nat)
    requires |t| <= 16 || ReadAvp(t).None?
    ensures DecodeFrom(t, counter, []) == []
    decreases FAILSAFE + 1 - counter
  {
    hide ReadAvp, ValidateSingleAvp, SkipAvp, DrainStack;
    if |t| > 16 && counter + 1 <= FAILSAFE { NothingFrom(t, counter + 1); }
  }

  lemma {:induction false} DecodesBefore(f: seq<Avp>, t: string, counter: nat)
    requires GoodForest(f) && counter + |Flat(f)| <= FAILSAFE && t != "" && (|t| <= 16 || ReadAvp(t).None?)
    ensures DecodeFrom(EncodeForest(f) + t, counter, []) == TopRecords(f)
    decreases |f|
  {
    hide DecodeFrom, Good, EncodeAvp, RecordOf, Flat, ReadAvp, Kids;
    if f == [] {
      NothingFrom(t, counter);
      assert EncodeForest(f) + t == t;
    } else {
      FlatUnfold(f);
      var rest := EncodeForest(f[1..]) + t;
      Assoc(EncodeAvp(f[0]), EncodeForest(f[1..]), t);
      assert Good(f[0]) by { assert f[0] in f; }
      GoodTextLength(f[..1]);
      EncodeSingle(f[0]);
      assert f[..1] == [f[0]];
      RoundBefore(f[0], rest, counter);
      DecodesBefore(f[1..], t, counter + 1 + |Flat(Kids(f[0]))|);
    }
  }

  /** Broken text behind printed AVPs costs none of them: whatever cannot be read as an AVP, or is
      too short for one, ends the list. */
  lemma BrokenTail(f: seq<Avp>, t: string)
    requires GoodForest(f) && f != [] && |Flat(f)| <= 100 && t != "" && (|t| <= 16 || ReadAvp(t).None?)
    ensures Decode(EncodeForest(f) + t) == TopRecords(f)
  {
    hide DecodeFrom, GoodForest, EncodeForest, Flat, ReadAvp, TopRecords;
    DecodesBefore(f, t, 0);
    GoodTextLength(f);
  }

  lemma LoneAvp(a: Avp)
    requires !Good(a)
    ensures Decode(EncodeForest([a])) != TopRecords([a])
  {
    hide Decode, EncodeForest, TopRecords, Flat, Good;
    assert a in [a];
    RoundTripIff([a]);
  }

  /** A vendor AVP under flags that name no vendor is never read back, and neither is an AVP
      without a vendor id under flags that promise one. */
  lemma MismatchedVendorIsMisread(a: Avp)
    requires a.vendor.Some? != IsVendorFlags(a.flags)
    ensures Decode(EncodeForest([a])) != TopRecords([a])
  {
    hide Decode, EncodeForest, TopRecords, Transparent;
    LoneAvp(a);
  }

  /** What becomes of a vendor id under other flags: it is read as the front of the payload. */
  lemma VendorBecomesPayload(code: nat, flags: string, vendor: nat, payload: string)
    requires vendor < 0x1_0000_0000
    ensures EncodeAvp(Leaf(code, flags, Some(vendor), payload)) == EncodeAvp(Leaf(code, flags, None, HexField(vendor, 8) + payload))
  {
    hide HexField, Padding;
    HexWidths();
    HexFieldReads(vendor, 8);
    var v, head := HexField(vendor, 8), HexField(code, 8) + flags;
    Assoc(head + "000000", v, payload);
    var length := |head + "000000" + v + payload| / 2;
    Assoc(head + HexField(length, 6), v, payload);
  }

  /** An AVP too long for its length field is never read back. */
  lemma OverlongIsMisread(a: Avp)
    requires ByteLength(a) >= 0x100_0000
    ensures Decode(EncodeForest([a])) != TopRecords([a])
  {
    hide Decode, EncodeForest, TopRecords, Transparent, ByteLength;
    LoneAvp(a);
  }

  /** The limit is 100 AVPs: that many copies of a leaf come back, and no more. */
  lemma HundredIsTheLimit(leaf: Avp, n: nat)
    requires leaf.Leaf? && Good(leaf) && !IsBare(leaf)
    ensures Decode(EncodeForest(seq(n, _ => leaf))) == TopRecords(seq(n, _ => leaf)) <==> n <= 100
  {
    hide Decode, EncodeForest, TopRecords, Flat, Good, IsBare;
    var f := seq(n, _ => leaf);
    FlatOfLeaves(f);
    RoundTripIff(f);
  }

  /** Leaves are emitted in the order in which they stand. */
  lemma {:induction false} FlatOfLeaves(f: seq<Avp>)
    requires forall a :: a in f ==> a.Leaf?
    ensures Flat(f) == f
  {
    FlatEmpty();
    if f != [] {
      assert f[0] in f;
      FlatOfLeaves(f[1..]);
      FlatUnfold(f);
    }
  }

  /** Any list of more than 100 AVPs loses some. */
  lemma TooManyAreMisread(f: seq<Avp>)
    requires |Flat(f)| > 100
    ensures Decode(EncodeForest(f)) != TopRecords(f)
  {
    hide Decode, EncodeForest, TopRecords, Flat, Good;
    RoundTripIff(f);
  }

  /** A packet of one bare header is read as an empty packet. */
  lemma BareHeaderIsLost(code: nat)
    requires code < 0x1_0000_0000
    ensures Decode(EncodeForest([Leaf(code, "40", None, "")])) == []
  {
    hide Decode, EncodeForest, ValidateSingleAvp;
    EmptyIsNoAvp();
    DecodeOfEncode([Leaf(code, "40", None, "")]);
  }

  /** A leaf whose payload passes for an AVP is not read back, whatever the payload is. */
  lemma SpelledAvpIsMisread(leaf: Avp)
    requires leaf.Leaf? && ValidateSingleAvp(leaf.payload)
    ensures Decode(EncodeForest([leaf])) != TopRecords([leaf])
  {
    hide Decode, EncodeForest, ValidateSingleAvp, TopRecords, WellFormed;
    LoneAvp(leaf);
  }

  /** There are such leaves: the text of an AVP, sent as a payload. */
  lemma PrintedAvpIsMisread(inner: Avp, leaf: Avp)
    requires WellFormed(inner) && IsKnownFlags(inner.flags) && leaf.Leaf? && leaf.payload == EncodeAvp(inner)
    ensures Decode(EncodeForest([leaf])) != TopRecords([leaf])
  {
    hide Decode, EncodeForest, ValidateSingleAvp, EncodeAvp, TopRecords, WellFormed;
    ReadEncoded(inner, "");
    assert EncodeAvp(inner) + "" == EncodeAvp(inner);
    SpelledAvpIsMisread(leaf);
  }

  // ------------------------------------------- the order is a rearrangement

  /** Every AVP of the trees once, parents before children before later siblings. */
  function Preorder(f: seq<Avp>): seq<Avp>
    decreases f
  {
    if f == [] then [] else [f[0]] + ((if f[0].Group? then Preorder(f[0].kids) else []) + Preorder(f[1..]))
  }

  /** Every descendant is emitted exactly once. */
  lemma {:induction false} FlatIsPermutation(f: seq<Avp>)
    ensures multiset(Flat(f)) == multiset(Preorder(f))
    decreases f
  {
    if f != [] {
      FlatIsPermutation(f[1..]);
      if f[0].Group? { FlatIsPermutation(f[0].kids); }
    }
  }
}
