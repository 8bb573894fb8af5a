/** The operation log of `database.py`: at most 1000 rows, the oldest overwritten in place. */
module OperationLog {

  const MAX_RECORDS: nat := 1000

  /** What `log_change` records; the row id belongs to the table, not to the record. */
  datatype Entry = Entry(itemId: int, operationId: string, operation: string, changes: string, tableName: string)

  /** A record with the time at which it was stored. */
  datatype Logged = Logged(entry: Entry, time: int)

  datatype Row = Row(id: nat, logged: Logged)

  function Contents(rows: seq<Row>): (r: seq<Logged>)
    ensures |r| == |rows| && forall i :: 0 <= i < |rows| ==> r[i] == rows[i].logged
  {
    seq(|rows|, i requires 0 <= i < |rows| => rows[i].logged)
  }

  /** Position `k` holds a row with the smallest timestamp. */
  ghost predicate IsOldest(rows: seq<Row>, k: nat)
  {
    k < |rows| && forall i :: 0 <= i < |rows| ==> rows[k].logged.time <= rows[i].logged.time
  }

  /** What one call does to the table. */
  ghost predicate Stored(before: seq<Row>, x: Logged, after: seq<Row>)
  {
    if |before| >= MAX_RECORDS then
      exists k: nat :: IsOldest(before, k) && after == before[k := Row(before[k].id, x)]
    else
      after == before + [Row(|before| + 1, x)]
  }

  class Log {
    var rows: seq<Row>

    constructor ()
      ensures rows == []
    {
      rows := [];
    }

    /** `order_by(timestamp.asc()).first()` */
    method FindOldest() returns (k: nat)
      requires rows != []
      ensures IsOldest(rows, k)
    {
      k := 0;
      for i := 1 to |rows|
        invariant k < |rows|
        invariant forall j :: 0 <= j < i ==> rows[k].logged.time <= rows[j].logged.time
      {
        if rows[i].logged.time < rows[k].logged.time {
          k := i;
        }
      }
    }

    /** Overwrites every column of the oldest row but its id. */
    method UpdateOldRecord(entry: Entry, now: int)
      requires rows != []
      modifies this
      ensures exists k: nat :: IsOldest(old(rows), k) && rows == old(rows)[k := Row(old(rows)[k].id, Logged(entry, now))]
    {
      var k := FindOldest();
      rows := rows[k := Row(rows[k].id, Logged(entry, now))];
    }

    /** Rollbacks are not logged. */
    method LogChange(entry: Entry, now: int, sessionOperation: string)
      modifies this
      ensures sessionOperation == "ROLLBACK" ==> rows == old(rows)
      ensures sessionOperation != "ROLLBACK" ==> Stored(old(rows), Logged(entry, now), rows)
    {
      if sessionOperation == "ROLLBACK" {
        return;
      }
      var count := |rows|;
      if count >= MAX_RECORDS {
        UpdateOldRecord(entry, now);
      } else {
        rows := rows + [Row(count + 1, Logged(entry, now))];
      }
    }
  }

  // ------------------------------------------------- appending and forgetting

  /** The simple form: keep the last 1000 of everything ever logged. */
  function Newest(history: seq<Logged>): (r: seq<Logged>)
    ensures |r| <= MAX_RECORDS && |r| <= |history|
  {
    if |history| <= MAX_RECORDS then history else history[|history| - MAX_RECORDS..]
  }

  /** Strictly increasing times. */
  ghost predicate Ascending(s: seq<Logged>)
  {
    forall i, j :: 0 <= i < j < |s| ==> s[i].time < s[j].time
  }

  /** `s` lists the contents of the table in the order of time. */
  ghost predicate InTimeOrder(s: seq<Logged>, rows: seq<Row>)
  {
    Ascending(s) && multiset(s) == multiset(Contents(rows))
  }

  lemma SameMembers(s: seq<Logged>, rows: seq<Row>)
    requires multiset(s) == multiset(Contents(rows))
    ensures |s| == |rows|
    ensures forall i :: 0 <= i < |s| ==> s[i] in Contents(rows)
    ensures forall i :: 0 <= i < |rows| ==> rows[i].logged in s
  {
    assert |multiset(s)| == |multiset(Contents(rows))|;
    forall i | 0 <= i < |s| ensures s[i] in Contents(rows) {
      assert s[i] in multiset(s);
    }
    forall i | 0 <= i < |rows| ensures rows[i].logged in s {
      assert Contents(rows)[i] in multiset(Contents(rows));
    }
  }

  /** The oldest row is the first in the order of time. */
  lemma OldestIsFirst(s: seq<Logged>, rows: seq<Row>, k: nat)
    requires InTimeOrder(s, rows) && IsOldest(rows, k)
    ensures s != [] && rows[k].logged == s[0]
  {
    SameMembers(s, rows);
    var i :| 0 <= i < |s| && s[i] == rows[k].logged;
    var j :| 0 <= j < |rows| && Contents(rows)[j] == s[0];
  }

  lemma ReplacedContents(rows: seq<Row>, k: nat, x: Logged)
    requires k < |rows|
    ensures multiset(Contents(rows[k := Row(rows[k].id, x)])) == multiset(Contents(rows)) - multiset{rows[k].logged} + multiset{x}
  {
    var c := Contents(rows);
    assert Contents(rows[k := Row(rows[k].id, x)]) == c[k := x];
    assert c == c[..k] + [c[k]] + c[k + 1..];
    assert c[k := x] == c[..k] + [x] + c[k + 1..];
  }

  lemma AppendedContents(rows: seq<Row>, row: Row)
    ensures multiset(Contents(rows + [row])) == multiset(Contents(rows)) + multiset{row.logged}
  {
    assert Contents(rows + [row]) == Contents(rows) + [row.logged];
  }

  lemma ShiftedOrder(s: seq<Logged>, x: Logged)
    requires s != [] && Ascending(s) && forall i :: 0 <= i < |s| ==> s[i].time < x.time
    ensures Ascending(s[1..] + [x])
    ensures multiset(s[1..] + [x]) == multiset(s) - multiset{s[0]} + multiset{x}
  {
    assert s == [s[0]] + s[1..];
  }

  lemma AppendedOrder(s: seq<Logged>, x: Logged)
    requires Ascending(s) && forall i :: 0 <= i < |s| ==> s[i].time < x.time
    ensures Ascending(s + [x]) && multiset(s + [x]) == multiset(s) + multiset{x}
  {
  }

  lemma NewestStep(history: seq<Logged>, x: Logged)
    ensures Newest(history + [x]) ==
      if |history| < MAX_RECORDS then Newest(history) + [x] else Newest(history)[1..] + [x]
  {
  }

  /** One call, under a clock that moves on: overwriting in place is appending and forgetting. */
  lemma StepRefines(history: seq<Logged>, before: seq<Row>, x: Logged, after: seq<Row>)
    requires InTimeOrder(Newest(history), before)
    requires |Newest(history)| == if |history| < MAX_RECORDS then |history| else MAX_RECORDS
    requires forall i :: 0 <= i < |Newest(history)| ==> Newest(history)[i].time < x.time
    requires Stored(before, x, after)
    ensures InTimeOrder(Newest(history + [x]), after)
  {
    hide Ascending, Newest;
    var s := Newest(history);
    SameMembers(s, before);
    NewestStep(history, x);
    if |before| >= MAX_RECORDS {
      var k: nat :| IsOldest(before, k) && after == before[k := Row(before[k].id, x)];
      OldestIsFirst(s, before, k);
      ReplacedContents(before, k, x);
      ShiftedOrder(s, x);
    } else {
      AppendedContents(before, Row(|before| + 1, x));
      AppendedOrder(s, x);
    }
  }

  /** The tables that `log_change` can leave behind after the given history, from an empty one. */
  ghost predicate Reaches(history: seq<Logged>, rows: seq<Row>)
  {
    if history == [] then rows == []
    else
      var n := |history| - 1;
      exists before :: Reaches(history[..n], before) && Stored(before, history[n], rows)
  }

  lemma NewestFacts(history: seq<Logged>, x: Logged)
    requires Ascending(history + [x])
    ensures Ascending(history)
    ensures |Newest(history)| == if |history| < MAX_RECORDS then |history| else MAX_RECORDS
    ensures forall i :: 0 <= i < |Newest(history)| ==> Newest(history)[i].time < x.time
  {
    var h := history + [x];
    forall i, j | 0 <= i < j < |history| ensures history[i].time < history[j].time {
      assert h[i] == history[i] && h[j] == history[j];
    }
    forall i | 0 <= i < |history| ensures history[i].time < x.time {
      assert h[i] == history[i] && h[|history|] == x;
    }
  }

  /** After any number of calls under a strictly increasing clock, the table holds exactly
      the newest 1000 records. */
  lemma {:induction false} LogRefinesNewest(history: seq<Logged>, rows: seq<Row>)
    requires Ascending(history) && Reaches(history, rows)
    ensures InTimeOrder(Newest(history), rows)
    ensures |history| <= 1000 ==> InTimeOrder(history, rows) && |rows| == |history|
    ensures |history| > 1000 ==> InTimeOrder(history[|history| - 1000..], rows) && |rows| == 1000
    decreases |history|
  {
    hide Stored, Ascending, Newest, InTimeOrder;
    if history == [] {
      NothingLogged();
    } else {
      var n := |history| - 1;
      var before :| Reaches(history[..n], before) && Stored(before, history[n], rows);
      assert history == history[..n] + [history[n]];
      NewestFacts(history[..n], history[n]);
      LogRefinesNewest(history[..n], before);
      StepRefines(history[..n], before, history[n], rows);
    }
    OrderLength(Newest(history), rows);
    NewestIs(history);
  }

  lemma NewestIs(history: seq<Logged>)
    ensures Newest(history) == if |history| <= 1000 then history else history[|history| - 1000..]
  {
  }

  lemma NothingLogged()
    ensures InTimeOrder(Newest([]), [])
  {
  }

  lemma OrderLength(s: seq<Logged>, rows: seq<Row>)
    requires InTimeOrder(s, rows)
    ensures |s| == |rows|
  {
    hide Ascending;
    SameMembers(s, rows);
  }

  lemma SameFirst(s: seq<Logged>, t: seq<Logged>)
    requires s != [] && Ascending(s) && Ascending(t) && multiset(s) == multiset(t)
    ensures t != [] && s[0] == t[0]
  {
    assert s[0] in multiset(t);
    var i :| 0 <= i < |t| && t[i] == s[0];
    assert t[0] in multiset(s);
    var j :| 0 <= j < |s| && s[j] == t[0];
  }

  lemma DropFirst(s: seq<Logged>)
    requires s != [] && Ascending(s)
    ensures Ascending(s[1..]) && multiset(s[1..]) == multiset(s) - multiset{s[0]}
  {
    assert s == [s[0]] + s[1..];
  }

  /** The order of time is unique, so the table determines the newest records. */
  lemma {:induction false} TimeOrderUnique(s: seq<Logged>, t: seq<Logged>)
    requires Ascending(s) && Ascending(t) && multiset(s) == multiset(t)
    ensures s == t
    decreases |s|
  {
    hide Ascending;
    assert |multiset(s)| == |multiset(t)|;
    if s != [] {
      SameFirst(s, t);
      DropFirst(s);
      DropFirst(t);
      TimeOrderUnique(s[1..], t[1..]);
      assert s == [s[0]] + s[1..] && t == [t[0]] + t[1..];
    }
  }

  lemma LastIsLatest(s: seq<Logged>, rows: seq<Row>, k: nat)
    requires InTimeOrder(s, rows)
    requires k < |rows| && forall i :: 0 <= i < |rows| ==> rows[i].logged.time <= rows[k].logged.time
    ensures s != [] && rows[k].logged == s[|s| - 1]
  {
    SameMembers(s, rows);
    var i :| 0 <= i < |s| && s[i] == rows[k].logged;
    var j :| 0 <= j < |rows| && Contents(rows)[j] == s[|s| - 1];
  }

  /** `rollback_last_change` looks at the row with the latest timestamp: the last record logged. */
  lemma LatestIsLast(history: seq<Logged>, rows: seq<Row>, k: nat)
    requires Ascending(history) && Reaches(history, rows) && history != []
    requires k < |rows| && forall i :: 0 <= i < |rows| ==> rows[i].logged.time <= rows[k].logged.time
    ensures rows[k].logged == history[|history| - 1]
  {
    hide Reaches, InTimeOrder, Ascending;
    LogRefinesNewest(history, rows);
    LastIsLatest(Newest(history), rows, k);
  }
}
