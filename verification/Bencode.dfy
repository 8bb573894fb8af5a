/** `bencode` and `bdecode` of `li_mirror.py`, over Python text. */
module Bencode {
  import opened PyText

  /** A hashable decoded value: what can be a dictionary key. */
  datatype Key = KStr(text: string) | KInt(n: int)

  datatype Term =
    | Str(text: string)
    | Int(n: int)
    | List(items: seq<Term>)
    | Dict(entries: map<Key, Term>)

  // ------------------------------------------------------------ sorted(keys)

  /** Code-point order on text. */
  predicate TextBefore(a: string, b: string)
  {
    b != [] && (a == [] || a[0] < b[0] || (a[0] == b[0] && TextBefore(a[1..], b[1..])))
  }

  predicate Before(a: Key, b: Key)
  {
    match (a, b)
    case (KStr(s), KStr(t)) => TextBefore(s, t)
    case (KInt(m), KInt(n)) => m < n
    case _ => false
  }

  /** The key sets that Python can sort: all text, or all numbers. */
  predicate Comparable(ks: set<Key>)
  {
    (forall k :: k in ks ==> k.KStr?) || (forall k :: k in ks ==> k.KInt?)
  }

  lemma {:induction false} TextOrderTotal(a: string, b: string)
    ensures TextBefore(a, b) || a == b || TextBefore(b, a)
    ensures !(TextBefore(a, b) && TextBefore(b, a)) && !TextBefore(a, a)
  {
    if a != [] && b != [] {
      TextOrderTotal(a[1..], b[1..]);
      TextOrderTotal(a[1..], a[1..]);
      if a[0] == b[0] && a[1..] == b[1..] { assert a == [a[0]] + a[1..] == b; }
    } else if a != [] {
      TextOrderTotal(a[1..], a[1..]);
    }
  }

  lemma {:induction false} TextOrderTransitive(a: string, b: string, c: string)
    requires TextBefore(a, b) && TextBefore(b, c)
    ensures TextBefore(a, c)
  {
    if a != [] && a[0] == b[0] && b[0] == c[0] {
      TextOrderTransitive(a[1..], b[1..], c[1..]);
    }
  }

  ghost predicate IsLeast(k: Key, ks: set<Key>)
  {
    k in ks && forall j :: j in ks && j != k ==> Before(k, j)
  }

  lemma {:induction false} LeastExists(ks: set<Key>) returns (k: Key)
    requires ks != {} && Comparable(ks)
    ensures IsLeast(k, ks)
    decreases |ks|
  {
    hide TextBefore, Before;
    var x :| x in ks;
    if ks == {x} {
      k := x;
    } else {
      var rest := ks - {x};
      var y := LeastExists(rest);
      KeyOrderTotal(x, y, ks);
      k := if Before(x, y) then x else y;
      forall j | j in ks && j != k ensures Before(k, j) {
        if j in rest && j != y {
          assert Before(y, j);
          if k == x { KeyOrderTransitive(x, y, j); }
        }
      }
    }
  }

  lemma KeyOrderTotal(x: Key, y: Key, ks: set<Key>)
    requires Comparable(ks) && x in ks && y in ks && x != y
    ensures Before(x, y) || Before(y, x)
  {
    hide TextBefore;
    if x.KStr? {
      assert y.KStr?;
      TextOrderTotal(x.text, y.text);
    }
  }

  lemma KeyOrderTransitive(x: Key, y: Key, z: Key)
    requires Before(x, y) && Before(y, z)
    ensures Before(x, z)
  {
    hide TextBefore;
    if x.KStr? { TextOrderTransitive(x.text, y.text, z.text); }
  }

  ghost predicate Ascending(ks: seq<Key>)
  {
    forall i, j :: 0 <= i < j < |ks| ==> Before(ks[i], ks[j])
  }

  lemma LeastFirst(k: Key, ks: set<Key>, rest: seq<Key>)
    requires IsLeast(k, ks) && Ascending(rest) && forall j :: j in rest <==> j in ks - {k}
    ensures Ascending([k] + rest) && forall j :: j in [k] + rest <==> j in ks
  {
    hide Before;
    var s := [k] + rest;
    forall i, j | 0 <= i < j < |s| ensures Before(s[i], s[j]) {
      assert s[j] == rest[j - 1] && rest[j - 1] in rest;
      if i > 0 { assert s[i] == rest[i - 1]; }
    }
  }

  /** `sorted(d)` */
  ghost function Sorted(ks: set<Key>): (s: seq<Key>)
    requires Comparable(ks)
    ensures forall k :: k in s <==> k in ks
    ensures Ascending(s)
    decreases |ks|
  {
    if ks == {} then []
    else
      assert exists k :: IsLeast(k, ks) by { var k := LeastExists(ks); }
      var k :| IsLeast(k, ks);
      LeastFirst(k, ks, Sorted(ks - {k}));
      [k] + Sorted(ks - {k})
  }

  lemma BeforeIsStrict(a: Key, b: Key)
    ensures !(Before(a, b) && Before(b, a)) && !Before(a, a)
  {
    if a.KStr? && b.KStr? { TextOrderTotal(a.text, b.text); }
    if a.KStr? { TextOrderTotal(a.text, a.text); }
  }

  /** The order in which keys were inserted cannot be seen: every ascending listing of
      the same keys is the same listing. */
  lemma {:induction false} AscendingUnique(s: seq<Key>, t: seq<Key>)
    requires Ascending(s) && Ascending(t) && forall k :: k in s <==> k in t
    ensures s == t
  {
    hide Before;
    if s == [] {
      HasMember(t);
    } else {
      assert s[0] in s;
      var i :| 0 <= i < |t| && t[i] == s[0];
      assert t[0] in t;
      var j :| 0 <= j < |s| && s[j] == t[0];
      BeforeIsStrict(s[0], t[0]);
      assert s[0] == t[0];
      forall k ensures k in s[1..] <==> k in t[1..] {
        TailMember(s, k);
        TailMember(t, k);
      }
      AscendingUnique(s[1..], t[1..]);
    }
  }

  lemma HasMember(s: seq<Key>)
    ensures s != [] ==> exists k :: k in s
  {
    if s != [] { assert s[0] in s; }
  }

  lemma TailMember(s: seq<Key>, k: Key)
    requires s != [] && Ascending(s)
    ensures k in s[1..] <==> k in s && k != s[0]
  {
    hide Before;
    if k in s[1..] {
      var i :| 0 <= i < |s[1..]| && s[1..][i] == k;
      assert s[i + 1] == k;
      BeforeIsStrict(s[0], s[i + 1]);
    }
  }

  // ----------------------------------------------------------------- encoding

  /** Every dictionary has keys that Python can sort. */
  predicate Sortable(t: Term)
  {
    match t
    case Str(_) => true
    case Int(_) => true
    case List(items) => forall i :: 0 <= i < |items| ==> Sortable(items[i])
    case Dict(m) => Comparable(m.Keys) && forall k :: k in m ==> Sortable(m[k])
  }

  function EncodeText(s: string): string
  {
    Digits(|s|, 10) + ":" + s
  }

  function EncodeNumber(n: int): string
  {
    "i" + Decimal(n) + "e"
  }

  function EncodeKey(k: Key): string
  {
    if k.KStr? then EncodeText(k.text) else EncodeNumber(k.n)
  }

  ghost function Encode(t: Term): string
    requires Sortable(t)
    decreases t
  {
    match t
    case Str(s) => EncodeText(s)
    case Int(n) => EncodeNumber(n)
    case List(items) => "l" + EncodeItems(t, 0) + "e"
    case Dict(m) => "d" + EncodeEntries(t, Sorted(m.Keys)) + "e"
  }

  /** The items of a list from position `i` on. */
  ghost function EncodeItems(t: Term, i: nat): string
    requires t.List? && Sortable(t) && i <= |t.items|
    decreases t, |t.items| - i
  {
    if i == |t.items| then "" else Encode(t.items[i]) + EncodeItems(t, i + 1)
  }

  /** The entries of a dictionary, for a listing of some of its keys. */
  ghost function EncodeEntries(t: Term, ks: seq<Key>): string
    requires t.Dict? && Sortable(t) && forall k :: k in ks ==> k in t.entries
    decreases t, |ks|
  {
    if ks == [] then ""
    else EncodeKey(ks[0]) + (Encode(t.entries[ks[0]]) + EncodeEntries(t, ks[1..]))
  }

  /** A dictionary is written in the ascending order of its keys, whatever order they came in. */
  lemma DictInOrder(t: Term, ks: seq<Key>)
    requires t.Dict? && Sortable(t) && Ascending(ks) && forall k :: k in ks <==> k in t.entries
    ensures Encode(t) == "d" + EncodeEntries(t, ks) + "e"
  {
    hide Before, EncodeEntries;
    AscendingUnique(ks, Sorted(t.entries.Keys));
  }

  /** The order of text keys: at the first difference the smaller character comes first, and a
      proper prefix comes before the longer text. */
  lemma {:induction false} TextBeforeMeaning(p: string, a: string, b: string)
    ensures TextBefore(p + a, p + b) <==> TextBefore(a, b)
    ensures a != "" ==> TextBefore(p, p + a) && !TextBefore(p + a, p)
    ensures a != "" && b != "" && a[0] != b[0] ==> (TextBefore(p + a, p + b) <==> a[0] < b[0])
  {
    if p == "" {
      assert p + a == a && p + b == b;
    } else {
      TextBeforeMeaning(p[1..], a, b);
      ConcatTail(p, a);
      ConcatTail(p, b);
    }
  }

  // ----------------------------------------------------------------- decoding

  /** The result of `bdecode`: a value and the next index, an implicit None, or an exception. */
  datatype Decoded = Ok(term: Term, next: nat) | Nothing | Raised

  /** The length in front of a text starts with a digit, so it is not negative. */
  lemma {:induction false} StripRightKeepsFirst(s: string)
    requires s != [] && !IsSpace(s[0])
    ensures StripRight(s) != [] && StripRight(s)[0] == s[0]
    decreases |s|
  {
    if IsSpace(s[|s| - 1]) {
      StripRightKeepsFirst(s[..|s| - 1]);
    }
  }

  lemma LengthNotNegative(s: string)
    requires s != [] && '0' <= s[0] <= '9' && ParseInt(s, 10).Some?
    ensures ParseInt(s, 10).value >= 0
  {
    hide Value, IsNumeral;
    StripRightKeepsFirst(s);
  }

  function DecodeNumber(data: string, idx: nat): (r: Decoded)
    requires idx < |data|
    ensures r.Ok? ==> r.next > idx
  {
    var end := Find(data, "e", idx);
    if end.None? then Raised
    else
      var n := ParseInt(Slice(data, idx + 1, end.value), 10);
      if n.None? then Raised else Ok(Int(n.value), end.value + 1)
  }

  function DecodeText(data: string, idx: nat): (r: Decoded)
    requires idx < |data| && '0' <= data[idx] <= '9'
    ensures r.Ok? ==> r.next > idx
  {
    var colon := Find(data, ":", idx);
    if colon.None? then Raised
    else
      var field := Slice(data, idx, colon.value);
      var n := ParseInt(field, 10);
      if n.None? then Raised
      else
        var start := colon.value + 1;
        assert data[colon.value..colon.value + 1] == ":" && data[colon.value..colon.value + 1][0] == data[colon.value];
        LengthNotNegative(field);
        Ok(Str(Slice(data, start, start + n.value)), start + n.value)
  }

  function AsKey(t: Term): Option<Key>
  {
    match t
    case Str(s) => Some(KStr(s))
    case Int(n) => Some(KInt(n))
    case _ => None
  }

  function Decode(data: string, idx: nat): (r: Decoded)
    ensures r.Ok? ==> r.next > idx
    decreases |data| - idx, 0
  {
    if idx >= |data| then Raised
    else
      var c := data[idx];
      if c == 'd' then
        var r := DecodeEntries(data, idx + 1, map[]);
        if r.None? then Raised else Ok(Dict(r.value.0), r.value.1)
      else if c == 'l' then
        var r := DecodeItems(data, idx + 1);
        if r.None? then Raised else Ok(List(r.value.0), r.value.1)
      else if c == 'i' then DecodeNumber(data, idx)
      else if '0' <= c <= '9' then DecodeText(data, idx)
      else Nothing
  }

  function DecodeItems(data: string, idx: nat): (r: Option<(seq<Term>, nat)>)
    ensures r.Some? ==> r.value.1 > idx
    decreases |data| - idx, 1
  {
    if idx >= |data| then None
    else if data[idx] == 'e' then Some(([], idx + 1))
    else
      var v := Decode(data, idx);
      if !v.Ok? then None
      else
        var rest := DecodeItems(data, v.next);
        if rest.None? then None else Some(([v.term] + rest.value.0, rest.value.1))
  }

  function DecodeEntries(data: string, idx: nat, d: map<Key, Term>): (r: Option<(map<Key, Term>, nat)>)
    ensures r.Some? ==> r.value.1 > idx
    decreases |data| - idx, 1
  {
    if idx >= |data| then None
    else if data[idx] == 'e' then Some((d, idx + 1))
    else
      var k := Decode(data, idx);
      if !k.Ok? || k.next >= |data| then None
      else
        var v := Decode(data, k.next);
        if !v.Ok? || AsKey(k.term).None? then None
        else DecodeEntries(data, v.next, d[AsKey(k.term).value := v.term])
  }

  /** The parser: recursive, with a loop that fills a list or a dictionary. */
  method Bdecode(data: string, start: nat) returns (r: Decoded)
    ensures r == Decode(data, start)
    decreases |data| - start
  {
    hide DecodeNumber, DecodeText;
    if start >= |data| {
      return Raised;
    }
    var c, idx := data[start], start;
    if c == 'd' {
      idx := idx + 1;
      var d: map<Key, Term> := map[];
      while idx < |data| && data[idx] != 'e'
        invariant start < idx
        invariant DecodeEntries(data, idx, d) == DecodeEntries(data, start + 1, map[])
        decreases |data| - idx
      {
        var key := Bdecode(data, idx);
        if !key.Ok? || key.next >= |data| {
          return Raised;
        }
        var val := Bdecode(data, key.next);
        if !val.Ok? || AsKey(key.term).None? {
          return Raised;
        }
        d, idx := d[AsKey(key.term).value := val.term], val.next;
      }
      if idx >= |data| {
        return Raised;
      }
      return Ok(Dict(d), idx + 1);
    }
    if c == 'l' {
      idx := idx + 1;
      var items: seq<Term> := [];
      NothingBefore(DecodeItems(data, idx));
      while idx < |data| && data[idx] != 'e'
        invariant start < idx
        invariant ItemsFrom(items, DecodeItems(data, idx)) == DecodeItems(data, start + 1)
        decreases |data| - idx
      {
        var val := Bdecode(data, idx);
        if !val.Ok? {
          return Raised;
        }
        ghost var rest := DecodeItems(data, val.next);
        if rest.Some? { assert items + ([val.term] + rest.value.0) == (items + [val.term]) + rest.value.0; }
        items, idx := items + [val.term], val.next;
      }
      if idx >= |data| {
        return Raised;
      }
      assert items + [] == items;
      return Ok(List(items), idx + 1);
    }
    if c == 'i' {
      r := DecodeNumber(data, start);
    } else if '0' <= c <= '9' {
      r := DecodeText(data, start);
    } else {
      r := Nothing;
    }
  }

  ghost function ItemsFrom(items: seq<Term>, rest: Option<(seq<Term>, nat)>): Option<(seq<Term>, nat)>
  {
    if rest.None? then None else Some((items + rest.value.0, rest.value.1))
  }

  lemma NothingBefore(rest: Option<(seq<Term>, nat)>)
    ensures ItemsFrom([], rest) == rest
  {
    if rest.Some? { assert [] + rest.value.0 == rest.value.0; }
  }

  // --------------------------------------------------------------- round trip

  lemma AtSplit(data: string, a: string, b: string, idx: nat)
    requires At(data, a + b, idx)
    ensures At(data, a, idx) && At(data, b, idx + |a|)
  {
    assert data[idx..idx + |a|] == data[idx..idx + |a + b|][..|a|];
    assert data[idx + |a|..idx + |a| + |b|] == data[idx..idx + |a + b|][|a|..];
  }

  /** A delimiter that does not occur in `a` is found right after it. */
  lemma FindAfter(data: string, a: string, c: char, idx: nat)
    requires At(data, a + [c], idx) && c !in a
    ensures Find(data, [c], idx) == Some(idx + |a|)
  {
    AtSplit(data, a, [c], idx);
    var r := Find(data, [c], idx);
    assert At(data, [c], idx + |a|);
    forall i: nat | idx <= i < idx + |a| ensures !At(data, [c], i) {
      assert data[i] == data[idx..idx + |a|][i - idx] == a[i - idx];
      assert data[i..i + 1][0] == data[i];
    }
  }

  lemma DigitsHaveNo(n: nat, c: char)
    requires c == ':' || c == 'e' || c == 'l' || c == 'd' || c == 'i'
    ensures c !in Digits(n, 10)
  {
  }

  lemma NumberReads(n: int, data: string, idx: nat)
    requires At(data, EncodeNumber(n), idx)
    ensures Decode(data, idx) == Ok(Int(n), idx + |EncodeNumber(n)|)
  {
    hide ParseInt, Value, Digits, At, Slice;
    var d := Decimal(n);
    DigitsHaveNo(if n < 0 then -n else n, 'e');
    NumberPieces(d, data, idx);
    FindAfter(data, "i" + d, 'e', idx);
    DecimalReads(n);
  }

  lemma NumberPieces(d: string, data: string, idx: nat)
    requires At(data, "i" + d + "e", idx)
    ensures At(data, ("i" + d) + "e", idx) && idx < |data| && data[idx] == 'i'
    ensures Slice(data, idx + 1, idx + 1 + |d|) == d
  {
    AtSplit(data, "i" + d, "e", idx);
    AtSplit(data, "i", d, idx);
    assert data[idx] == data[idx..idx + 1][0];
  }

  lemma TextReads(s: string, data: string, idx: nat)
    requires At(data, EncodeText(s), idx)
    ensures Decode(data, idx) == Ok(Str(s), idx + |EncodeText(s)|)
  {
    hide ParseInt, Value, Digits, At, Slice;
    var d := Digits(|s|, 10);
    TextPieces(d, s, data, idx);
    DigitsHaveNo(|s|, ':');
    FindAfter(data, d, ':', idx);
    ValueOfDigits(|s|, 10);
    ParseDigits(d, 10);
  }

  lemma TextPieces(d: string, s: string, data: string, idx: nat)
    requires d != [] && AllDigits(d, 10) && At(data, d + ":" + s, idx)
    ensures At(data, d + ":", idx) && idx < |data| && '0' <= data[idx] <= '9'
    ensures Slice(data, idx, idx + |d|) == d
    ensures Slice(data, idx + |d| + 1, idx + |d| + 1 + |s|) == s
  {
    AtSplit(data, d + ":", s, idx);
    AtSplit(data, d, ":", idx);
    assert data[idx] == data[idx..idx + |d|][0] == d[0];
    assert IsDigit(d[0], 10);
  }

  lemma KeyReads(k: Key, data: string, idx: nat)
    requires At(data, EncodeKey(k), idx)
    ensures Decode(data, idx) == Ok(if k.KStr? then Str(k.text) else Int(k.n), idx + |EncodeKey(k)|)
    ensures idx < |data| && data[idx] != 'e'
  {
    hide Decode, Digits, EncodeNumber, EncodeText;
    if k.KStr? {
      TextReads(k.text, data, idx);
    } else {
      NumberReads(k.n, data, idx);
    }
    NotEnd(data, idx);
  }

  lemma NotEnd(data: string, idx: nat)
    requires Decode(data, idx).Ok?
    ensures idx < |data| && data[idx] != 'e'
  {
  }

  /** Wherever the encoding of a value stands, `bdecode` reads that value and stops right
      after it. */
  lemma {:induction false} ReadsBack(t: Term, data: string, idx: nat)
    requires Sortable(t) && At(data, Encode(t), idx)
    ensures Decode(data, idx) == Ok(t, idx + |Encode(t)|)
    decreases t
  {
    hide EncodeNumber, EncodeText, EncodeItems, EncodeEntries, DecodeItems, DecodeEntries, Sorted, DecodeNumber, DecodeText, At;
    match t
    case Str(s) => TextReads(s, data, idx);
    case Int(n) => NumberReads(n, data, idx);
    case List(items) =>
      var body := EncodeItems(t, 0);
      assert Encode(t) == "l" + (body + "e");
      AtSplit(data, "l", body + "e", idx);
      AtChar(data, 'l', idx);
      ItemsReadBack(t, 0, data, idx + 1);
      assert items[0..] == items;
    case Dict(m) =>
      var ks := Sorted(m.Keys);
      var body := EncodeEntries(t, ks);
      assert Encode(t) == "d" + (body + "e");
      AtSplit(data, "d", body + "e", idx);
      AtChar(data, 'd', idx);
      EntriesReadBack(t, ks, data, idx + 1, map[]);
      assert map[] + Entries(t, ks) == m;
  }

  lemma AtChar(data: string, c: char, idx: nat)
    requires At(data, [c], idx)
    ensures idx < |data| && data[idx] == c
  {
    assert data[idx..idx + 1][0] == data[idx];
  }

  lemma {:induction false} ItemsReadBack(t: Term, i: nat, data: string, idx: nat)
    requires t.List? && Sortable(t) && i <= |t.items|
    requires At(data, EncodeItems(t, i) + "e", idx)
    ensures DecodeItems(data, idx) == Some((t.items[i..], idx + |EncodeItems(t, i)| + 1))
    decreases t, |t.items| - i
  {
    hide Encode, Decode, At;
    if i == |t.items| {
      assert "" + "e" == "e";
      AtChar(data, 'e', idx);
      assert t.items[i..] == [];
    } else {
      var head, rest := Encode(t.items[i]), EncodeItems(t, i + 1);
      assert EncodeItems(t, i) + "e" == head + (rest + "e");
      AtSplit(data, head, rest + "e", idx);
      ReadsBack(t.items[i], data, idx);
      NotEnd(data, idx);
      ItemsReadBack(t, i + 1, data, idx + |head|);
      assert t.items[i..] == [t.items[i]] + t.items[i + 1..];
    }
  }

  /** The part of a dictionary under a listing of keys. */
  ghost function Entries(t: Term, ks: seq<Key>): map<Key, Term>
    requires t.Dict? && forall k :: k in ks ==> k in t.entries
  {
    map k | k in ks :: t.entries[k]
  }

  lemma {:induction false} EntriesReadBack(t: Term, ks: seq<Key>, data: string, idx: nat, d: map<Key, Term>)
    requires t.Dict? && Sortable(t) && forall k :: k in ks ==> k in t.entries
    requires At(data, EncodeEntries(t, ks) + "e", idx)
    ensures DecodeEntries(data, idx, d) == Some((d + Entries(t, ks), idx + |EncodeEntries(t, ks)| + 1))
    decreases t, |ks|
  {
    hide Encode, EncodeKey, Decode, At, Sortable, Entries;
    if ks == [] {
      assert "" + "e" == "e";
      AtChar(data, 'e', idx);
      NoEntries(t, d);
    } else {
      var k, rest := ks[0], EncodeEntries(t, ks[1..]);
      SortableEntry(t, k);
      var v := t.entries[k];
      assert EncodeEntries(t, ks) + "e" == EncodeKey(k) + (Encode(v) + (rest + "e"));
      EntryReadsBack(k, v, rest + "e", data, idx);
      ReadsBack(v, data, idx + |EncodeKey(k)|);
      EntryStep(k, v, data, idx, d);
      EntriesReadBack(t, ks[1..], data, idx + |EncodeKey(k)| + |Encode(v)|, d[k := v]);
      EntriesCons(t, ks, d);
    }
  }

  lemma EntryReadsBack(k: Key, v: Term, rest: string, data: string, idx: nat)
    requires Sortable(v) && At(data, EncodeKey(k) + (Encode(v) + rest), idx)
    ensures At(data, EncodeKey(k), idx) && At(data, Encode(v), idx + |EncodeKey(k)|)
    ensures At(data, rest, idx + |EncodeKey(k)| + |Encode(v)|)
  {
    hide Encode, EncodeKey, At;
    AtSplit(data, EncodeKey(k), Encode(v) + rest, idx);
    AtSplit(data, Encode(v), rest, idx + |EncodeKey(k)|);
  }

  /** One round of the dictionary loop on an encoded entry. */
  lemma EntryStep(k: Key, v: Term, data: string, idx: nat, d: map<Key, Term>)
    requires Sortable(v) && At(data, EncodeKey(k), idx)
    requires Decode(data, idx + |EncodeKey(k)|) == Ok(v, idx + |EncodeKey(k)| + |Encode(v)|)
    ensures DecodeEntries(data, idx, d) == DecodeEntries(data, idx + |EncodeKey(k)| + |Encode(v)|, d[k := v])
  {
    hide Encode, EncodeKey, Decode, At, Sortable;
    KeyReads(k, data, idx);
    NotEnd(data, idx + |EncodeKey(k)|);
  }

  lemma EntriesCons(t: Term, ks: seq<Key>, d: map<Key, Term>)
    requires t.Dict? && ks != [] && forall k :: k in ks ==> k in t.entries
    ensures d[ks[0] := t.entries[ks[0]]] + Entries(t, ks[1..]) == d + Entries(t, ks)
  {
    assert forall k :: k in ks <==> k == ks[0] || k in ks[1..];
  }

  lemma NoEntries(t: Term, d: map<Key, Term>)
    requires t.Dict?
    ensures d + Entries(t, []) == d
  {
  }

  lemma SortableEntry(t: Term, k: Key)
    requires t.Dict? && Sortable(t) && k in t.entries
    ensures Sortable(t.entries[k])
  {
  }

  /** Encodings are prefix-free, hence injective. */
  lemma PrefixFree(a: Term, b: Term)
    requires Sortable(a) && Sortable(b) && Encode(a) <= Encode(b)
    ensures a == b
  {
    hide Encode, Decode;
    ReadsBack(a, Encode(b), 0);
    ReadsBack(b, Encode(b), 0);
  }

  /** A value reads back from the middle of any text. */
  lemma RoundTrip(pre: string, t: Term, suf: string)
    requires Sortable(t)
    ensures Decode(pre + Encode(t) + suf, |pre|) == Ok(t, |pre| + |Encode(t)|)
  {
    hide Encode, Decode;
    ReadsBack(t, pre + Encode(t) + suf, |pre|);
  }

  /** Text that ends before its declared length is taken as it is, and the next index lies
      beyond the end: a cut message is not noticed here. */
  lemma CutText(n: nat, s: string)
    requires |s| <= n
    ensures Decode(Digits(n, 10) + ":" + s, 0) == Ok(Str(s), |Digits(n, 10)| + 1 + n)
  {
    hide Digits, Value, ParseInt, Find;
    var d := Digits(n, 10);
    var data := d + ":" + s;
    assert IsDigit(d[0], 10) && data[0] == d[0];
    assert ':' !in d;
    FindFresh(d, ":", s);
    ParseDigits(d, 10);
    ValueOfDigits(n, 10);
    assert Slice(data, 0, |d|) == d;
    assert Slice(data, |d| + 1, |d| + 1 + n) == s;
  }

  /** A list or dictionary that is cut off raises; an unknown first character gives nothing. */
  lemma CutOff(c: char, rest: string)
    ensures Decode("", 0) == Raised && Decode("l", 0) == Raised && Decode("d", 0) == Raised
    ensures !('0' <= c <= '9') && c != 'i' && c != 'l' && c != 'd' ==> Decode([c] + rest, 0) == Nothing
  {
  }
}
