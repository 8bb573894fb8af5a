/** `get_avp_data`: looking an AVP code up in a decoded packet. */
module AvpQuery {
  import opened PyText
  import opened AvpCodec
  import opened AvpForest

  /** One element of the returned list: payload text, or a `sub_avps` list. */
  datatype Entry = Data(text: string) | SubList(subs: seq<AvpRecord>)

  function SelectSubs(subs: seq<AvpRecord>, code: int): seq<Entry>
  {
    if subs == [] then []
    else (if subs[0].code == code then [Data(subs[0].data)] else []) + SelectSubs(subs[1..], code)
  }

  function OwnEntry(r: TopRecord, code: int): seq<Entry>
  {
    if r.avp.code != code then [] else if r.avp.data == "" then [SubList(r.subs)] else [Data(r.avp.data)]
  }

  function SelectTop(r: TopRecord, code: int): seq<Entry>
  {
    OwnEntry(r, code) + SelectSubs(r.subs, code)
  }

  function Select(avps: seq<TopRecord>, code: int): seq<Entry>
  {
    if avps == [] then [] else SelectTop(avps[0], code) + Select(avps[1..], code)
  }

  method AppendSubData(found0: seq<Entry>, subs: seq<AvpRecord>, code: int) returns (found: seq<Entry>)
    ensures found == found0 + SelectSubs(subs, code)
  {
    found := found0;
    for j := 0 to |subs|
      invariant found + SelectSubs(subs[j..], code) == found0 + SelectSubs(subs, code)
    {
      if subs[j].code == code {
        found := found + [Data(subs[j].data)];
      }
    }
  }

  lemma TopDone(before: seq<Entry>, r: TopRecord, code: int)
    ensures (before + OwnEntry(r, code)) + SelectSubs(r.subs, code) == before + SelectTop(r, code)
  {
    hide OwnEntry, SelectSubs;
  }

  method GetAvpData(avps: seq<TopRecord>, code: int) returns (found: seq<Entry>)
    ensures found == Select(avps, code)
  {
    hide SelectSubs, SelectTop;
    found := [];
    for i := 0 to |avps|
      invariant found + Select(avps[i..], code) == Select(avps, code)
    {
      ghost var before := found;
      var avp := avps[i];
      if avp.avp.code == code {
        if |avp.avp.data| == 0 {
          found := found + [SubList(avp.subs)];
        } else {
          found := found + [Data(avp.avp.data)];
        }
      }
      assert found == before + OwnEntry(avp, code);
      found := AppendSubData(found, avp.subs, code);
      TopDone(before, avp, code);
      assert avps[i..][1..] == avps[i + 1..];
      Assoc(before, SelectTop(avp, code), Select(avps[i + 1..], code));
    }
  }

  // ------------------------------------------- what a lookup means on AVP trees

  /** An AVP as the decoded packet holds it: at top level, or inside a `sub_avps` list. */
  datatype Visited = Visited(avp: Avp, top: bool)

  function Nested(f: seq<Avp>): seq<Visited>
  {
    if f == [] then [] else [Visited(f[0], false)] + Nested(f[1..])
  }

  /** Each top-level AVP, followed by all its descendants in `Flat` order. */
  function Visit(f: seq<Avp>): seq<Visited>
  {
    if f == [] then [] else [Visited(f[0], true)] + Nested(Flat(Kids(f[0]))) + Visit(f[1..])
  }

  function WithCode(vs: seq<Visited>, code: int): seq<Visited>
  {
    if vs == [] then []
    else (if vs[0].avp.code == code then [vs[0]] else []) + WithCode(vs[1..], code)
  }

  /** A top-level AVP without text is answered by its sub-AVPs, any other by its text. */
  function EntryOf(v: Visited): Entry
  {
    var text := if v.avp.Leaf? then v.avp.payload else "";
    if v.top && text == "" then SubList(Records(Flat(Kids(v.avp)))) else Data(text)
  }

  function Entries(vs: seq<Visited>): seq<Entry>
  {
    if vs == [] then [] else [EntryOf(vs[0])] + Entries(vs[1..])
  }

  /** Nodes with the code, counted over the trees themselves. */
  function CountCode(f: seq<Avp>, code: int): nat
    decreases f
  {
    if f == [] then 0
    else
      var below := if f[0].Group? then CountCode(f[0].kids, code) else 0;
      (if f[0].code == code then 1 else 0) + below + CountCode(f[1..], code)
  }

  lemma {:induction false} WithCodeConcat(a: seq<Visited>, b: seq<Visited>, code: int)
    ensures WithCode(a + b, code) == WithCode(a, code) + WithCode(b, code)
  {
    if a == [] {
      assert a + b == b;
    } else {
      WithCodeConcat(a[1..], b, code);
      ConcatTail(a, b);
      Assoc(if a[0].avp.code == code then [a[0]] else [], WithCode(a[1..], code), WithCode(b, code));
    }
  }

  lemma {:induction false} EntriesConcat(a: seq<Visited>, b: seq<Visited>)
    ensures Entries(a + b) == Entries(a) + Entries(b)
  {
    hide EntryOf;
    if a == [] {
      assert a + b == b;
    } else {
      EntriesConcat(a[1..], b);
      ConcatTail(a, b);
      Assoc([EntryOf(a[0])], Entries(a[1..]), Entries(b));
    }
  }

  lemma {:induction false} SelectSubsMeaning(f: seq<Avp>, code: int)
    ensures SelectSubs(Records(f), code) == Entries(WithCode(Nested(f), code))
  {
    hide Flat;
    if f != [] {
      SelectSubsMeaning(f[1..], code);
      assert Records(f)[1..] == Records(f[1..]);
      assert Nested(f)[1..] == Nested(f[1..]);
      var rest := WithCode(Nested(f[1..]), code);
      if f[0].code == code {
        assert ([Visited(f[0], false)] + rest)[1..] == rest;
      } else {
        assert [] + rest == rest;
      }
    }
  }

  lemma SelectTopMeaning(x: Avp, code: int)
    ensures SelectTop(TopRecord(RecordOf(x), Records(Flat(Kids(x)))), code)
      == Entries(WithCode([Visited(x, true)] + Nested(Flat(Kids(x))), code))
  {
    hide Flat, SelectSubs, Nested, Entries, WithCode;
    var subs := Nested(Flat(Kids(x)));
    SelectSubsMeaning(Flat(Kids(x)), code);
    WithCodeConcat([Visited(x, true)], subs, code);
    EntriesConcat(WithCode([Visited(x, true)], code), WithCode(subs, code));
    SingleEntry(Visited(x, true), code);
  }

  lemma SingleEntry(v: Visited, code: int)
    ensures Entries(WithCode([v], code)) == if v.avp.code == code then [EntryOf(v)] else []
  {
    hide EntryOf;
    assert [v][1..] == [];
    assert WithCode([v], code) == if v.avp.code == code then [v] else [];
  }

  lemma {:induction false} SelectMeaning(f: seq<Avp>, code: int)
    ensures Select(TopRecords(f), code) == Entries(WithCode(Visit(f), code))
  {
    hide Flat, SelectTop, Nested, Entries, WithCode, RecordOf;
    if f == [] {
      NoEntry(code);
    } else {
      var x, rest := f[0], Visit(f[1..]);
      var first := [Visited(x, true)] + Nested(Flat(Kids(x)));
      SelectMeaning(f[1..], code);
      SelectTopMeaning(x, code);
      assert TopRecords(f)[1..] == TopRecords(f[1..]);
      WithCodeConcat(first, rest, code);
      EntriesConcat(WithCode(first, code), WithCode(rest, code));
    }
  }

  lemma NoEntry(code: int)
    ensures Entries(WithCode([], code)) == []
  {
  }

  lemma {:induction false} NestedConcat(a: seq<Avp>, b: seq<Avp>)
    ensures Nested(a + b) == Nested(a) + Nested(b)
  {
    if a == [] {
      assert a + b == b;
    } else {
      NestedConcat(a[1..], b);
      ConcatTail(a, b);
      Assoc([Visited(a[0], false)], Nested(a[1..]), Nested(b));
    }
  }

  lemma {:induction false} FlatCount(f: seq<Avp>, code: int)
    ensures |WithCode(Nested(Flat(f)), code)| == CountCode(f, code)
    decreases f
  {
    if f != [] {
      var a, b := Flat(f[1..]), if f[0].Group? then Flat(f[0].kids) else [];
      FlatCount(f[1..], code);
      if f[0].Group? { FlatCount(f[0].kids, code); }
      NestedConcat(a, b);
      WithCodeConcat(Nested(a), Nested(b), code);
      assert Flat(f)[1..] == a + b;
      assert Nested(Flat(f))[1..] == Nested(a + b);
    }
  }

  lemma {:induction false} VisitCount(f: seq<Avp>, code: int)
    ensures |WithCode(Visit(f), code)| == CountCode(f, code)
  {
    hide Flat, Nested;
    if f != [] {
      var subs := Nested(Flat(Kids(f[0])));
      VisitCount(f[1..], code);
      FlatCount(Kids(f[0]), code);
      WithCodeConcat([Visited(f[0], true)] + subs, Visit(f[1..]), code);
      WithCodeConcat([Visited(f[0], true)], subs, code);
    }
  }

  lemma {:induction false} VisitConcat(f: seq<Avp>, g: seq<Avp>)
    ensures Visit(f + g) == Visit(f) + Visit(g)
  {
    hide Flat, Nested, Kids;
    if f == [] {
      assert f + g == g;
    } else {
      VisitConcat(f[1..], g);
      ConcatTail(f, g);
      Assoc([Visited(f[0], true)] + Nested(Flat(Kids(f[0]))), Visit(f[1..]), Visit(g));
    }
  }

  /** The first AVP with a code, if it stands at top level with none before it. */
  lemma FirstWithCode(f: seq<Avp>, i: nat, code: int)
    requires i < |f| && f[i].code == code && CountCode(f[..i], code) == 0
    ensures WithCode(Visit(f), code) != [] && WithCode(Visit(f), code)[0] == Visited(f[i], true)
  {
    hide Flat, Nested, CountCode;
    assert f == f[..i] + f[i..];
    VisitConcat(f[..i], f[i..]);
    VisitCount(f[..i], code);
    WithCodeConcat(Visit(f[..i]), Visit(f[i..]), code);
    assert Visit(f[i..])[0] == Visited(f[i], true);
  }

  lemma {:induction false} EntriesLength(vs: seq<Visited>)
    ensures |Entries(vs)| == |vs|
  {
    if vs != [] { EntriesLength(vs[1..]); }
  }

  /** Looking a code up in a packet that survives the round trip: one entry for each AVP
      with that code anywhere in the trees, in visiting order, and none otherwise. */
  lemma LookupAfterRoundTrip(f: seq<Avp>, code: int)
    requires GoodForest(f) && |Flat(f)| <= FAILSAFE && !EndsBare(f)
    ensures var found := Select(Decode(EncodeForest(f)), code);
      && found == Entries(WithCode(Visit(f), code))
      && |found| == CountCode(f, code)
      && (found == [] <==> CountCode(f, code) == 0)
  {
    hide Decode, EncodeForest, Flat, Select, Entries, WithCode, Visit, CountCode, TopRecords, WellFormed, Transparent;
    RoundTripIff(f);
    SelectMeaning(f, code);
    EntriesLength(WithCode(Visit(f), code));
    VisitCount(f, code);
  }

  lemma FlatOfCons(a: Avp, rest: seq<Avp>)
    ensures Flat([a] + rest) == [a] + (Flat(rest) + Flat(Kids(a)))
  {
    hide Flat, Kids;
    FlatUnfold([a] + rest);
    assert ([a] + rest)[1..] == rest;
  }

  // ----------------------------------------------- what a code finds in a list

  function Own(a: Avp, code: int): seq<Entry>
  {
    if a.code != code then [] else [Data(if a.Leaf? then a.payload else "")]
  }

  /** The payloads of the AVPs with a code, in list order. */
  function Payloads(f: seq<Avp>, code: int): seq<Entry>
  {
    if f == [] then [] else Own(f[0], code) + Payloads(f[1..], code)
  }

  lemma {:induction false} PayloadsConcat(f: seq<Avp>, g: seq<Avp>, code: int)
    ensures Payloads(f + g, code) == Payloads(f, code) + Payloads(g, code)
  {
    hide Own;
    if f == [] {
      assert f + g == g;
    } else {
      PayloadsConcat(f[1..], g, code);
      ConcatTail(f, g);
      Assoc(Own(f[0], code), Payloads(f[1..], code), Payloads(g, code));
    }
  }

  lemma PayloadsCons(a: Avp, rest: seq<Avp>, code: int)
    ensures Payloads([a] + rest, code) == Own(a, code) + Payloads(rest, code)
  {
    hide Own;
    assert ([a] + rest)[1..] == rest;
  }

  lemma PayloadsSingle(a: Avp, code: int)
    ensures Payloads([a], code) == Own(a, code)
  {
    hide Own;
    assert [a][1..] == [];
  }

  lemma {:induction false} NestedPayloads(f: seq<Avp>, code: int)
    ensures Entries(WithCode(Nested(f), code)) == Payloads(f, code)
  {
    hide Flat;
    if f != [] {
      NestedPayloads(f[1..], code);
      assert Nested(f)[1..] == Nested(f[1..]);
      EntriesConcat(if f[0].code == code then [Visited(f[0], false)] else [], WithCode(Nested(f[1..]), code));
    }
  }

  lemma NoPayload(code: int)
    ensures Payloads([], code) == []
  {
  }

  /** All AVPs below the top level, in visiting order. */
  function NestedAvps(f: seq<Avp>): seq<Avp>
  {
    if f == [] then [] else Flat(Kids(f[0])) + NestedAvps(f[1..])
  }

  lemma {:induction false} NestedAvpsConcat(f: seq<Avp>, g: seq<Avp>)
    ensures NestedAvps(f + g) == NestedAvps(f) + NestedAvps(g)
  {
    hide Flat, Kids;
    if f == [] {
      assert f + g == g;
    } else {
      NestedAvpsConcat(f[1..], g);
      ConcatTail(f, g);
      Assoc(Flat(Kids(f[0])), NestedAvps(f[1..]), NestedAvps(g));
    }
  }

  lemma NestedAvpsOne(a: Avp)
    ensures NestedAvps([a]) == Flat(Kids(a))
  {
    hide Flat, Kids;
    assert [a][1..] == [];
  }

  /** The flattening has the top-level AVPs and the nested ones. */
  lemma {:induction false} FlatSize(f: seq<Avp>)
    ensures |Flat(f)| == |f| + |NestedAvps(f)|
  {
    hide Flat, Kids;
    if f == [] {
      FlatEmpty();
    } else {
      FlatSize(f[1..]);
      FlatUnfold(f);
    }
  }

  /** A code that no top-level AVP has finds the payloads of the nested AVPs with it. */
  lemma {:induction false} NestedLookup(f: seq<Avp>, code: int)
    requires forall a :: a in f ==> a.code != code
    ensures Entries(WithCode(Visit(f), code)) == Payloads(NestedAvps(f), code)
  {
    hide Flat, Nested, Entries, Payloads, WithCode, Kids;
    if f == [] {
      NoEntry(code);
      NoPayload(code);
    } else {
      var inside, rest := Flat(Kids(f[0])), Visit(f[1..]);
      assert f[0] in f;
      NestedLookup(f[1..], code);
      NestedPayloads(inside, code);
      PayloadsConcat(inside, NestedAvps(f[1..]), code);
      WithCodeSkip(Visited(f[0], true), Nested(inside), code);
      WithCodeConcat([Visited(f[0], true)] + Nested(inside), rest, code);
      EntriesConcat(WithCode(Nested(inside), code), WithCode(rest, code));
    }
  }

  lemma WithCodeSkip(v: Visited, rest: seq<Visited>, code: int)
    requires v.avp.code != code
    ensures WithCode([v] + rest, code) == WithCode(rest, code)
  {
    assert ([v] + rest)[1..] == rest;
    assert [] + WithCode(rest, code) == WithCode(rest, code);
  }
}
