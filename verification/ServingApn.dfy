/** `Update_Serving_APN`: the table of sessions that a subscriber has on an APN.  The table
    has no unique constraint; that there is one row per subscriber and APN is kept by code. */
module ServingApn {
  import opened PyText

  // ---------------------------------------------------------- choosing the APN

  /** `apn_list.remove(d)`, which leaves a list without `d` alone. */
  function RemoveFirst(ids: seq<nat>, d: nat): seq<nat>
  {
    if ids == [] then [] else if ids[0] == d then ids[1..] else [ids[0]] + RemoveFirst(ids[1..], d)
  }

  /** The list in which the default APN comes first. */
  function DefaultFirst(ids: seq<nat>, d: nat): (r: seq<nat>)
    ensures r != [] && r[0] == d
  {
    [d] + RemoveFirst(ids, d)
  }

  /** Moving the default to the front keeps every other identifier, as often as it was there. */
  lemma {:induction false} DefaultFirstMembers(ids: seq<nat>, d: nat)
    ensures multiset(DefaultFirst(ids, d)) == if d in ids then multiset(ids) else multiset(ids) + multiset{d}
  {
    RemoveFirstMembers(ids, d);
  }

  lemma {:induction false} RemoveFirstMembers(ids: seq<nat>, d: nat)
    ensures multiset(RemoveFirst(ids, d)) == multiset(ids) - multiset{d}
  {
    if ids != [] {
      var x, rest := ids[0], ids[1..];
      assert ids == [x] + rest;
      assert multiset(ids) == multiset{x} + multiset(rest);
      if x != d {
        RemoveFirstMembers(rest, d);
        assert multiset([x] + RemoveFirst(rest, d)) == multiset{x} + multiset(RemoveFirst(rest, d));
      }
    }
  }

  /** The other identifiers keep their order: only the first `d` goes. */
  lemma {:induction false} RemoveFirstKeepsOrder(a: seq<nat>, d: nat, b: seq<nat>)
    requires d !in a
    ensures RemoveFirst(a + [d] + b, d) == a + b && RemoveFirst(a, d) == a
    ensures DefaultFirst(a + [d] + b, d) == [d] + a + b && DefaultFirst(a, d) == [d] + a
  {
    var ids := a + [d] + b;
    if a == [] {
      assert ids == [d] + b && ids[1..] == b;
      assert a + b == b;
    } else {
      RemoveFirstKeepsOrder(a[1..], d, b);
      assert ids[1..] == a[1..] + [d] + b;
      assert a == [a[0]] + a[1..];
      assert [a[0]] + (a[1..] + b) == a + b;
    }
    assert [d] + (a + b) == [d] + a + b;
  }

  /** What the code knows about APNs: names by identifier, and how names are lowered. */
  datatype Names = Names(byId: map<nat, string>, lower: string -> string)
  {
    predicate Matches(id: nat, wanted: string)
    {
      id in byId && lower(byId[id]) == lower(wanted)
    }
  }

  /** Position `i` is the first match and every identifier up to it is known. */
  ghost predicate FirstMatch(names: Names, ids: seq<nat>, wanted: string, i: nat)
  {
    && i < |ids| && names.Matches(ids[i], wanted)
    && forall j :: 0 <= j < i ==> ids[j] in names.byId && !names.Matches(ids[j], wanted)
  }

  /** The loop over the list; `None` where looking an unknown identifier up raises. */
  method ChooseApn(names: Names, ids: seq<nat>, wanted: string) returns (id: Option<nat>)
    requires ids != []
    ensures id == Chosen(names, ids, wanted)
  {
    id := None;
    for i := 0 to |ids|
      invariant i < |ids| ==> Chosen(names, ids[i..], wanted) == Chosen(names, ids, wanted)
      invariant i > 0 ==> id == Some(ids[i - 1])
      invariant i == |ids| ==> id == Chosen(names, ids, wanted)
    {
      if ids[i] !in names.byId {
        return None;
      }
      id := Some(ids[i]);
      if names.lower(names.byId[ids[i]]) == names.lower(wanted) {
        return;
      }
      assert ids[i..][1..] == ids[i + 1..];
    }
  }

  function Chosen(names: Names, ids: seq<nat>, wanted: string): Option<nat>
    requires ids != []
  {
    if ids[0] !in names.byId then None
    else if names.Matches(ids[0], wanted) || |ids| == 1 then Some(ids[0])
    else Chosen(names, ids[1..], wanted)
  }

  /** The first match if there is one before an unknown identifier; the last identifier if
      all are known and none matches; otherwise an exception. */
  lemma {:induction false} ChosenMeaning(names: Names, ids: seq<nat>, wanted: string)
    requires ids != []
    ensures forall i: nat :: FirstMatch(names, ids, wanted, i) ==> Chosen(names, ids, wanted) == Some(ids[i])
    ensures (forall j :: 0 <= j < |ids| ==> ids[j] in names.byId && !names.Matches(ids[j], wanted)) ==>
      Chosen(names, ids, wanted) == Some(ids[|ids| - 1])
    ensures Chosen(names, ids, wanted).None? <==>
      exists i :: 0 <= i < |ids| && ids[i] !in names.byId && forall j :: 0 <= j < i ==> !names.Matches(ids[j], wanted)
    decreases |ids|
  {
    if ids[0] in names.byId && !names.Matches(ids[0], wanted) && |ids| > 1 {
      var rest := ids[1..];
      ChosenMeaning(names, rest, wanted);
      forall i: nat | FirstMatch(names, ids, wanted, i) ensures Chosen(names, ids, wanted) == Some(ids[i]) {
        assert rest[i - 1] == ids[i];
        assert FirstMatch(names, rest, wanted, i - 1);
      }
      UnknownTail(names, ids, wanted);
    }
  }

  ghost predicate UnknownAt(names: Names, ids: seq<nat>, wanted: string, i: int)
  {
    0 <= i < |ids| && ids[i] !in names.byId && forall j :: 0 <= j < i ==> !names.Matches(ids[j], wanted)
  }

  lemma UnknownTail(names: Names, ids: seq<nat>, wanted: string)
    requires |ids| > 1 && ids[0] in names.byId && !names.Matches(ids[0], wanted)
    ensures (exists i :: UnknownAt(names, ids, wanted, i)) <==> (exists i :: UnknownAt(names, ids[1..], wanted, i))
  {
    var rest := ids[1..];
    if i :| UnknownAt(names, ids, wanted, i) {
      assert UnknownAt(names, rest, wanted, i - 1);
    }
    if i :| UnknownAt(names, rest, wanted, i) {
      assert UnknownAt(names, ids, wanted, i + 1);
    }
  }

  // ---------------------------------------------------------------- the table

  datatype Key = Key(subscriber: nat, apn: nat)

  datatype Session = Session(pcrfSessionId: string, pgw: string, realm: string, peer: string, timestamp: string, routing: string)

  datatype Row = Row(id: nat, key: Key, session: Session)

  /** At most one row per subscriber and APN. */
  ghost predicate Unique(rows: seq<Row>)
  {
    forall i, j :: 0 <= i < j < |rows| ==> rows[i].key != rows[j].key
  }

  /** `filter_by(subscriber_id, apn).first()` */
  function FindRow(rows: seq<Row>, key: Key): (r: Option<nat>)
    ensures r.Some? ==> r.value < |rows| && rows[r.value].key == key
    ensures r.Some? ==> forall i :: 0 <= i < r.value ==> rows[i].key != key
    ensures r.None? ==> forall i :: 0 <= i < |rows| ==> rows[i].key != key
  {
    if rows == [] then None
    else if rows[0].key == key then Some(0)
    else
      var r := FindRow(rows[1..], key);
      if r.None? then None else Some(r.value + 1)
  }

  /** The table as a map from subscriber and APN to session. */
  ghost function View(rows: seq<Row>): map<Key, Session>
  {
    map k | k in (set i | 0 <= i < |rows| :: rows[i].key) :: rows[FindRow(rows, k).value].session
  }

  /** Whether the PGW name passes the three assertions before an update. */
  predicate Usable(pgw: string)
  {
    |pgw| > 0 && !Contains(pgw, "None")
  }

  /** One call on the table: no PGW removes the row; a row that is there is updated, or removed
      for an unusable PGW; a row that is not there is created whatever the PGW. */
  function StepRows(rows: seq<Row>, newId: nat, key: Key, pgw: Option<string>, session: Session): seq<Row>
  {
    var found := FindRow(rows, key);
    if found.None? then
      if pgw.None? then rows else rows + [Row(newId, key, session)]
    else
      var k := found.value;
      if pgw.Some? && Usable(pgw.value) then rows[k := rows[k].(session := session)]
      else rows[..k] + rows[k + 1..]
  }

  /** The same call on a plain map. */
  function StepMap(m: map<Key, Session>, key: Key, pgw: Option<string>, session: Session): map<Key, Session>
  {
    if pgw.Some? && (key !in m || Usable(pgw.value)) then m[key := session] else m - {key}
  }

  lemma ViewAt(rows: seq<Row>, i: nat)
    requires Unique(rows) && i < |rows|
    ensures rows[i].key in View(rows) && View(rows)[rows[i].key] == rows[i].session
  {
    var k := FindRow(rows, rows[i].key).value;
    assert k == i;
  }

  /** A map that has exactly the rows' entries is the view. */
  lemma ViewIs(rows: seq<Row>, m: map<Key, Session>)
    requires Unique(rows)
    requires forall i :: 0 <= i < |rows| ==> rows[i].key in m && m[rows[i].key] == rows[i].session
    requires forall k :: k in m ==> exists i :: 0 <= i < |rows| && rows[i].key == k
    ensures View(rows) == m
  {
    forall k | k in m ensures k in View(rows) && View(rows)[k] == m[k] {
      var i :| 0 <= i < |rows| && rows[i].key == k;
      ViewAt(rows, i);
    }
    forall k | k in View(rows) ensures k in m {
      var i :| 0 <= i < |rows| && rows[i].key == k;
    }
  }

  lemma ViewKeys(rows: seq<Row>, k: Key)
    ensures k in View(rows) <==> FindRow(rows, k).Some?
  {
  }

  lemma AppendRefines(rows: seq<Row>, row: Row)
    requires Unique(rows) && FindRow(rows, row.key).None?
    ensures Unique(rows + [row]) && View(rows + [row]) == View(rows)[row.key := row.session]
  {
    var after, m := rows + [row], View(rows)[row.key := row.session];
    forall i | 0 <= i < |after| ensures after[i].key in m && m[after[i].key] == after[i].session {
      if i < |rows| { ViewAt(rows, i); }
    }
    forall k | k in m ensures exists i :: 0 <= i < |after| && after[i].key == k {
      var i := if k == row.key then |rows| else FindRow(rows, k).value;
      assert after[i].key == k;
    }
    ViewIs(after, m);
  }

  lemma ReplaceRefines(rows: seq<Row>, k: nat, session: Session)
    requires Unique(rows) && k < |rows|
    ensures var after := rows[k := rows[k].(session := session)];
      Unique(after) && View(after) == View(rows)[rows[k].key := session]
  {
    var after, m := rows[k := rows[k].(session := session)], View(rows)[rows[k].key := session];
    forall i | 0 <= i < |after| ensures after[i].key in m && m[after[i].key] == after[i].session {
      ViewAt(rows, i);
      assert i != k ==> rows[i].key != rows[k].key;
    }
    forall x | x in m ensures exists i :: 0 <= i < |after| && after[i].key == x {
      var i := if x == rows[k].key then k else FindRow(rows, x).value;
      assert after[i].key == x;
    }
    ViewIs(after, m);
  }

  lemma RemovedRow(rows: seq<Row>, k: nat, i: nat)
    requires Unique(rows) && k < |rows| && i < |rows| - 1
    ensures var j := if i < k then i else i + 1;
      (rows[..k] + rows[k + 1..])[i] == rows[j] && rows[j].key != rows[k].key
  {
  }

  lemma RemoveUnique(rows: seq<Row>, k: nat)
    requires Unique(rows) && k < |rows|
    ensures Unique(rows[..k] + rows[k + 1..])
  {
  }

  lemma RemoveRefines(rows: seq<Row>, k: nat)
    requires Unique(rows) && k < |rows|
    ensures var after := rows[..k] + rows[k + 1..];
      Unique(after) && View(after) == View(rows) - {rows[k].key}
  {
    hide Unique, View;
    var after, m := rows[..k] + rows[k + 1..], View(rows) - {rows[k].key};
    forall i | 0 <= i < |after| ensures after[i].key in m && m[after[i].key] == after[i].session {
      RemovedRow(rows, k, i);
      ViewAt(rows, if i < k then i else i + 1);
    }
    forall x | x in m ensures exists i :: 0 <= i < |after| && after[i].key == x {
      ViewKeys(rows, x);
      var j := FindRow(rows, x).value;
      var i := if j < k then j else j - 1;
      RemovedRow(rows, k, i);
      assert after[i].key == x;
    }
    RemoveUnique(rows, k);
    ViewIs(after, m);
  }

  /** One call keeps the rows unique and does to the table what it does to the map. */
  lemma StepRefines(rows: seq<Row>, newId: nat, key: Key, pgw: Option<string>, session: Session)
    requires Unique(rows)
    ensures Unique(StepRows(rows, newId, key, pgw, session))
    ensures View(StepRows(rows, newId, key, pgw, session)) == StepMap(View(rows), key, pgw, session)
  {
    hide View, Unique, Usable;
    var found := FindRow(rows, key);
    ViewKeys(rows, key);
    if found.None? {
      if pgw.Some? { AppendRefines(rows, Row(newId, key, session)); }
    } else if pgw.Some? && Usable(pgw.value) {
      ReplaceRefines(rows, found.value, session);
    } else {
      RemoveRefines(rows, found.value);
    }
  }

  /** What one call does to the sessions on record, by the PGW name it brings: a name that is
      not empty and does not contain None stores the session, row there or not; any other name
      removes a row that is there and creates one that is not; no name removes the row. */
  lemma StepMeaning(rows: seq<Row>, newId: nat, key: Key, pgw: Option<string>, session: Session)
    requires Unique(rows)
    ensures var before, after := View(rows), View(StepRows(rows, newId, key, pgw, session));
      && (pgw.Some? && pgw.value != "" && !Contains(pgw.value, "None") ==> after == before[key := session])
      && (pgw.Some? && (pgw.value == "" || Contains(pgw.value, "None")) ==>
            after == if key in before then before - {key} else before[key := session])
      && (pgw.None? ==> after == before - {key})
  {
    hide View, Unique, StepRows, Contains;
    StepRefines(rows, newId, key, pgw, session);
  }

  // ------------------------------------------------------------------- runs

  /** What the subscriber table says about a subscriber. */
  datatype Subscriber = Subscriber(id: nat, apnList: seq<nat>, defaultApn: nat)

  datatype Call = Call(subscriber: Subscriber, apn: string, pgw: Option<string>, session: Session, newId: nat)

  /** The APN identifier that a call works on. */
  function Target(names: Names, c: Call): Option<nat>
  {
    Chosen(names, DefaultFirst(c.subscriber.apnList, c.subscriber.defaultApn), c.apn)
  }

  /** Position `i` is the first whose name is the wanted one, letter case aside, and every
      identifier up to it is known. */
  ghost predicate NamedFirst(names: Names, ids: seq<nat>, wanted: string, i: nat)
  {
    && i < |ids| && ids[i] in names.byId && names.lower(names.byId[ids[i]]) == names.lower(wanted)
    && forall j :: 0 <= j < i ==> ids[j] in names.byId && names.lower(names.byId[ids[j]]) != names.lower(wanted)
  }

  lemma ChosenByName(names: Names, ids: seq<nat>, wanted: string, i: nat)
    requires ids != []
    ensures NamedFirst(names, ids, wanted, i) ==> Chosen(names, ids, wanted) == Some(ids[i])
    ensures (forall j :: 0 <= j < |ids| ==> ids[j] in names.byId && names.lower(names.byId[ids[j]]) != names.lower(wanted)) ==>
      Chosen(names, ids, wanted) == Some(ids[|ids| - 1])
  {
    hide Chosen;
    ChosenMeaning(names, ids, wanted);
    if NamedFirst(names, ids, wanted, i) { assert FirstMatch(names, ids, wanted, i); }
  }

  /** The identifier that a call works on: the default one is tried first and the others of the
      list in their order; the first with the wanted name is taken, and the last if none has it. */
  lemma TargetMeaning(names: Names, c: Call, a: seq<nat>, b: seq<nat>, i: nat)
    requires var d, list := c.subscriber.defaultApn, c.subscriber.apnList;
      d !in a && (list == a + [d] + b || (list == a && b == []))
    ensures var ids := [c.subscriber.defaultApn] + a + b;
      && (NamedFirst(names, ids, c.apn, i) ==> Target(names, c) == Some(ids[i]))
      && ((forall j :: 0 <= j < |ids| ==> ids[j] in names.byId && names.lower(names.byId[ids[j]]) != names.lower(c.apn)) ==>
            Target(names, c) == Some(ids[|ids| - 1]))
  {
    hide Chosen, NamedFirst, RemoveFirst;
    var d := c.subscriber.defaultApn;
    RemoveFirstKeepsOrder(a, d, b);
    assert [d] + a + [] == [d] + a;
    ChosenByName(names, [d] + a + b, c.apn, i);
  }

  function RunRows(names: Names, calls: seq<Call>): seq<Row>
  {
    if calls == [] then []
    else
      var c, before := calls[|calls| - 1], RunRows(names, calls[..|calls| - 1]);
      var apn := Target(names, c);
      if apn.None? then before else StepRows(before, c.newId, Key(c.subscriber.id, apn.value), c.pgw, c.session)
  }

  function RunMap(names: Names, calls: seq<Call>): map<Key, Session>
  {
    if calls == [] then map[]
    else
      var c, before := calls[|calls| - 1], RunMap(names, calls[..|calls| - 1]);
      var apn := Target(names, c);
      if apn.None? then before else StepMap(before, Key(c.subscriber.id, apn.value), c.pgw, c.session)
  }

  /** After any sequence of calls there is at most one row per subscriber and APN, and the
      table is the map that the same calls build. */
  lemma {:induction false} RunRefines(names: Names, calls: seq<Call>)
    ensures Unique(RunRows(names, calls)) && View(RunRows(names, calls)) == RunMap(names, calls)
  {
    hide View, Unique, Target, StepRows, StepMap;
    if calls == [] {
      EmptyTable();
    } else {
      var c, before := calls[|calls| - 1], calls[..|calls| - 1];
      RunRefines(names, before);
      var apn := Target(names, c);
      if apn.Some? {
        StepRefines(RunRows(names, before), c.newId, Key(c.subscriber.id, apn.value), c.pgw, c.session);
      }
    }
  }

  lemma {:induction false} OthersUntouched(names: Names, calls: seq<Call>, k: nat, key: Key)
    requires k <= |calls|
    requires forall j :: k <= j < |calls| ==> Target(names, calls[j]).None? || Key(calls[j].subscriber.id, Target(names, calls[j]).value) != key
    ensures key in RunMap(names, calls) <==> key in RunMap(names, calls[..k])
    ensures key in RunMap(names, calls) ==> RunMap(names, calls)[key] == RunMap(names, calls[..k])[key]
    decreases |calls|
  {
    hide Target, Usable;
    if k == |calls| {
      assert calls[..k] == calls;
    } else {
      var before := calls[..|calls| - 1];
      OthersUntouched(names, before, k, key);
      assert before[..k] == calls[..k];
    }
  }

  /** After any run, the last call on a subscriber's APN decides: a PGW name that is not empty
      and does not contain None leaves exactly its session on record, and no name leaves none. */
  lemma LastCallDecides(names: Names, calls: seq<Call>, k: nat, apn: nat)
    requires k < |calls| && Target(names, calls[k]) == Some(apn)
    requires forall j :: k < j < |calls| ==>
      Target(names, calls[j]).None? || Key(calls[j].subscriber.id, Target(names, calls[j]).value) != Key(calls[k].subscriber.id, apn)
    ensures var key, pgw := Key(calls[k].subscriber.id, apn), calls[k].pgw;
      var after := View(RunRows(names, calls));
      && (pgw.Some? && pgw.value != "" && !Contains(pgw.value, "None") ==> key in after && after[key] == calls[k].session)
      && (pgw.None? ==> key !in after)
  {
    hide Target, View, RunRows, Contains;
    var key := Key(calls[k].subscriber.id, apn);
    RunRefines(names, calls);
    OthersUntouched(names, calls, k + 1, key);
    assert calls[..k + 1][..k] == calls[..k];
  }

  lemma EmptyTable()
    ensures Unique([]) && View([]) == map[]
  {
  }

  /** The stored table. */
  class ServingTable {
    var rows: seq<Row>

    constructor ()
      ensures rows == []
    {
      rows := [];
    }

    /** The row of a subscriber on an APN; `None` stands for the exception on no result. */
    method GetServingApn(key: Key) returns (k: Option<nat>)
      ensures k == FindRow(rows, key)
    {
      for i := 0 to |rows|
        invariant forall j :: 0 <= j < i ==> rows[j].key != key
      {
        if rows[i].key == key {
          return Some(i);
        }
      }
      k := None;
    }

    /** `ok` is false where resolving the APN raises, before anything is stored. */
    method UpdateServingApn(names: Names, subscriber: Subscriber, apn: string, pgw: Option<string>, session: Session, newId: nat)
      returns (ok: bool)
      modifies this
      ensures var target := Target(names, Call(subscriber, apn, pgw, session, newId));
        && ok == target.Some?
        && rows == if ok then StepRows(old(rows), newId, Key(subscriber.id, target.value), pgw, session) else old(rows)
      ensures old(Unique(rows)) ==> Unique(rows)
    {
      var list := DefaultFirst(subscriber.apnList, subscriber.defaultApn);
      var id := ChooseApn(names, list, apn);
      ok := id.Some?;
      if !ok {
        return;
      }
      var key := Key(subscriber.id, id.value);
      if Unique(rows) { StepRefines(rows, newId, key, pgw, session); }
      var k := GetServingApn(key);
      if pgw.None? {
        if k.Some? {
          rows := rows[..k.value] + rows[k.value + 1..];
        }
      } else if k.Some? {
        if |pgw.value| > 0 && !Contains(pgw.value, "None") {
          rows := rows[k.value := rows[k.value].(session := session)];
        } else {
          rows := rows[..k.value] + rows[k.value + 1..];
        }
      } else {
        rows := rows + [Row(newId, key, session)];
      }
    }
  }
}
