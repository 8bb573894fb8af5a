/** The textual undo format of the operation log: how `log_change` writes changed columns,
    and what `rollback_last_change` reads back on the DELETE and UPDATE paths. */
module UndoText {
  import opened PyText

  /** A column value; a date is known only by its text. */
  datatype Cell = VNone | VBool(b: bool) | VInt(n: int) | VStr(text: string) | VDate(shown: string)

  const SEPARATOR: string := "\r\n\r\n"
  const ARROW: string := " ----> "

  /** `type(v).__name__` */
  function TypeName(v: Cell): string
  {
    match v
    case VNone => "NoneType"
    case VBool(_) => "bool"
    case VInt(_) => "int"
    case VStr(_) => "str"
    case VDate(_) => "datetime"
  }

  /** `str(v)` */
  function Shown(v: Cell): string
  {
    match v
    case VNone => "None"
    case VBool(b) => if b then "True" else "False"
    case VInt(n) => Decimal(n)
    case VStr(s) => s
    case VDate(s) => s
  }

  /** The typed form `[type] value`. */
  function Typed(v: Cell): string
  {
    "[" + (TypeName(v) + "] " + Shown(v))
  }

  /** One changed column. */
  function FormatChange(column: string, before: Cell, after: Cell): string
  {
    column + ": " + (Typed(before) + (ARROW + Typed(after)))
  }

  function StrToType(name: string, text: string): Option<Cell>
  {
    if name == "int" then
      var n := ParseInt(text, 10);
      if n.None? then None else Some(VInt(n.value))
    else if name == "str" then Some(VStr(text))
    else if name == "bool" then Some(VBool(text == "True"))
    else if name == "NoneType" then Some(VNone)
    else None
  }

  /** Reads the typed form after its bracket; `None` where Python raises. */
  function ReadTyped(inner: string): Option<Cell>
  {
    var parts := SplitOnce(inner, "] ");
    if parts.None? then None else StrToType(parts.value.0, parts.value.1)
  }

  /** (column, text of the old value) */
  function ReadChange(change: string): Option<(string, string)>
  {
    var parts := SplitOnce(change, ": ");
    if parts.None? then None
    else
      var values := SplitOnce(parts.value.1, ARROW);
      if values.None? then None else Some((parts.value.0, values.value.0))
  }

  /** The DELETE path drops the first character of the old value, the UPDATE path also the last. */
  function ReadDeleted(change: string): Option<(string, Cell)>
  {
    var c := ReadChange(change);
    if c.None? then None
    else
      var v := ReadTyped(Drop(c.value.1, 1));
      if v.None? then None else Some((c.value.0, v.value))
  }

  function ReadUpdated(change: string): Option<(string, Cell)>
  {
    var c := ReadChange(change);
    if c.None? then None
    else
      var v := ReadTyped(Slice(c.value.1, 1, -1));
      if v.None? then None else Some((c.value.0, v.value))
  }

  // ------------------------------------------------------------- one column

  /** Column names are identifiers. */
  predicate PlainName(name: string)
  {
    forall i :: 0 <= i < |name| ==> name[i] == '_' || '0' <= name[i] <= '9' || 'a' <= name[i] <= 'z' || 'A' <= name[i] <= 'Z'
  }

  /** No arrow begins in or right before the text when an arrow follows it. */
  predicate ArrowFree(shown: string)
  {
    !Contains(" " + shown + " ---->", ARROW)
  }

  lemma PlainHas(name: string, c: char)
    requires PlainName(name) && (c == ':' || c == ' ' || c == ']' || c == '\r' || c == '\n')
    ensures c !in name
  {
  }

  lemma TypeIsPlain(v: Cell)
    ensures PlainName(TypeName(v)) && TypeName(v) != ""
  {
  }

  lemma NotAt(t: string, pat: string, i: nat, k: nat)
    requires k < |pat| && i + k < |t| && t[i + k] != pat[k]
    ensures !At(t, pat, i)
  {
    if At(t, pat, i) {
      AtChars(t, pat, i, k);
      assert false;
    }
  }

  /** Numbers, flags and None never bring an arrow about. */
  lemma SimpleIsArrowFree(shown: string)
    requires ' ' !in shown && (|shown| >= 2 ==> shown[1] != '-')
    ensures ArrowFree(shown)
  {
    hide At;
    var t := " " + shown + " ---->";
    forall i | 0 <= i <= |t| ensures !At(t, ARROW, i) {
      if i + 7 > |t| {
        TooLate(t, ARROW, i);
      } else if i == 0 {
        NotAt(t, ARROW, 0, if shown == "" then 1 else 2);
      } else {
        assert t[i] == shown[i - 1];
        NotAt(t, ARROW, i, 0);
      }
    }
  }

  lemma TooLate(t: string, pat: string, i: nat)
    requires i + |pat| > |t|
    ensures !At(t, pat, i)
  {
  }

  lemma ShownIsArrowFree(v: Cell)
    requires v.VNone? || v.VBool? || v.VInt?
    ensures ArrowFree(Shown(v))
  {
    hide ArrowFree, Digits;
    if v.VInt? {
      var d := Digits(if v.n < 0 then -v.n else v.n, 10);
      assert Decimal(v.n) == if v.n < 0 then "-" + d else d;
      forall i | 0 <= i < |d| ensures d[i] != ' ' && d[i] != '-' { assert IsDigit(d[i], 10); }
    }
    SimpleIsArrowFree(Shown(v));
  }

  /** The first arrow in `head + window + " " + t`, where the window ends with all of an
      arrow but its last blank, and `head` has no blank. */
  lemma WindowArrow(head: string, shown: string, t: string) returns (p: nat)
    requires ' ' !in head
    ensures var window := " " + shown + " ---->";
      var s := head + window + (" " + t);
      && Find(s, ARROW, 0) == Some(p) && |head| <= p <= |head| + 1 + |shown|
      && (p == |head| + 1 + |shown| <==> ArrowFree(shown))
  {
    hide At;
    var window := " " + shown + " ---->";
    var s := head + window + (" " + t);
    var last := |head| + 1 + |shown|;
    ArrowEnds(head, shown, t);
    p := Find(s, ARROW, 0).value;
    if p < |head| {
      NotAt(s, ARROW, p, 0);
      assert false;
    }
    if p < last {
      ArrowInWindow(head, window, " " + t, p);
    } else {
      forall i | 0 <= i <= |window| ensures !At(window, ARROW, i) {
        if i + 7 <= |window| {
          ArrowOutside(head, window, " " + t, i);
        } else {
          TooLate(window, ARROW, i);
        }
      }
    }
  }

  lemma ArrowEnds(head: string, shown: string, t: string)
    ensures At(head + (" " + shown + " ---->") + (" " + t), ARROW, |head| + 1 + |shown|)
  {
    var s, last := head + (" " + shown + " ---->") + (" " + t), |head| + 1 + |shown|;
    assert s == (head + (" " + shown)) + ARROW + t;
  }

  lemma ArrowInWindow(head: string, window: string, t: string, p: nat)
    requires At(head + window + t, ARROW, p) && |head| <= p && p + 7 <= |head| + |window|
    ensures Contains(window, ARROW)
  {
    assert (head + window + t)[p..p + 7] == window[p - |head|..p - |head| + 7];
    assert At(window, ARROW, p - |head|);
  }

  lemma ArrowOutside(head: string, window: string, t: string, i: nat)
    requires i + 7 <= |window|
    ensures At(window, ARROW, i) ==> At(head + window + t, ARROW, |head| + i)
  {
    assert (head + window + t)[|head| + i..|head| + i + 7] == window[i..i + 7];
  }

  /** Where the first arrow stands after a typed value: after the `]` at the earliest, and
      right after the value exactly if the text is free of arrows. */
  lemma FirstArrow(v: Cell, t: string) returns (p: nat)
    ensures p <= |Typed(v)| && |TypeName(v)| + 2 <= p
    ensures SplitOnce(Typed(v) + (ARROW + t), ARROW).Some?
    ensures SplitOnce(Typed(v) + (ARROW + t), ARROW).value.0 == Typed(v)[..p]
    ensures p == |Typed(v)| <==> ArrowFree(Shown(v))
  {
    hide Find, ArrowFree, Shown, TypeName;
    var head := "[" + TypeName(v) + "]";
    TypeIsPlain(v);
    PlainHas(TypeName(v), ' ');
    p := WindowArrow(head, Shown(v), t);
    assert head + (" " + Shown(v) + " ---->") + (" " + t) == Typed(v) + (ARROW + t);
    assert (Typed(v) + (ARROW + t))[..p] == Typed(v)[..p];
  }

  // --------------------------------------------------- reading one column back

  lemma ChangeReads(column: string, before: Cell, after: Cell) returns (p: nat)
    requires PlainName(column)
    ensures p <= |Typed(before)| && |TypeName(before)| + 2 <= p
    ensures ReadChange(FormatChange(column, before, after)) == Some((column, Typed(before)[..p]))
    ensures p == |Typed(before)| <==> ArrowFree(Shown(before))
  {
    hide Find, ArrowFree, Shown, TypeName, Typed, PlainName, SplitOnce;
    PlainHas(column, ':');
    FindFresh(column, ": ", Typed(before) + (ARROW + Typed(after)));
    p := FirstArrow(before, Typed(after));
  }

  lemma TypedReads(v: Cell, text: string)
    ensures ReadTyped(TypeName(v) + "] " + text) == StrToType(TypeName(v), text)
    ensures ReadTyped(TypeName(v) + "]").None? && ReadTyped(TypeName(v)).None?
  {
    hide Find, StrToType, TypeName;
    TypeIsPlain(v);
    PlainHas(TypeName(v), ']');
    PlainHas(TypeName(v), ' ');
    FindFresh(TypeName(v), "] ", text);
    NoBlank(TypeName(v) + "]");
    NoBlank(TypeName(v));
  }

  lemma NoBlank(s: string)
    requires ' ' !in s
    ensures SplitOnce(s, "] ").None?
  {
    var i := Find(s, "] ", 0);
    if i.Some? {
      AtChars(s, "] ", i.value, 1);
      assert false;
    }
  }

  lemma CutInner(name: string, shown: string, n: nat)
    requires |name| <= n <= |name| + 2 + |shown|
    ensures (name + "] " + shown)[..n] ==
      if n == |name| then name else if n == |name| + 1 then name + "]" else name + "] " + shown[..n - |name| - 2]
  {
  }

  /** The old value's text, cut at the first arrow, without its bracket. */
  lemma CutTyped(v: Cell, p: nat)
    requires |TypeName(v)| + 2 <= p <= |Typed(v)|
    ensures var k := p - |TypeName(v)| - 3;
      && Drop(Typed(v)[..p], 1) == (if k < 0 then TypeName(v) + "]" else TypeName(v) + "] " + Shown(v)[..k])
      && Slice(Typed(v)[..p], 1, -1) == (if k < 0 then TypeName(v) else if k == 0 then TypeName(v) + "]"
                                         else TypeName(v) + "] " + Shown(v)[..k - 1])
  {
    hide TypeName, Shown;
    var cut, inner := Typed(v)[..p], TypeName(v) + "] " + Shown(v);
    assert cut[1..] == inner[..p - 1];
    assert Slice(cut, 1, -1) == cut[1..p - 1] == inner[..p - 2];
    CutInner(TypeName(v), Shown(v), p - 1);
    CutInner(TypeName(v), Shown(v), p - 2);
  }

  lemma StrToTypeReads(v: Cell)
    ensures StrToType(TypeName(v), Shown(v)) == if v.VDate? then None else Some(v)
  {
    hide ParseInt, Decimal;
    if v.VInt? { DecimalReads(v.n); }
  }

  /** A column comes back on the DELETE path exactly if it is not a date and no arrow
      begins in its text. */
  lemma DeletedReadsIff(column: string, v: Cell, after: Cell)
    requires PlainName(column)
    ensures ReadDeleted(FormatChange(column, v, after)) == Some((column, v)) <==> !v.VDate? && ArrowFree(Shown(v))
    ensures ReadDeleted(FormatChange(column, v, after)).Some? ==> ReadDeleted(FormatChange(column, v, after)).value.0 == column
  {
    hide FormatChange, ReadChange, ReadTyped, Typed, ArrowFree, PlainName, Shown, TypeName, StrToType;
    var p := ChangeReads(column, v, after);
    CutTyped(v, p);
    var k := p - |TypeName(v)| - 3;
    if k < 0 {
      TypedReads(v, "");
      TypedLength(v);
    } else {
      TypedLength(v);
      TypedReads(v, Shown(v)[..k]);
      if p == |Typed(v)| {
        assert Shown(v)[..k] == Shown(v);
        StrToTypeReads(v);
      } else {
        ShorterReads(v, k);
      }
    }
  }

  lemma TypedLength(v: Cell)
    ensures |Typed(v)| == |TypeName(v)| + 3 + |Shown(v)|
  {
    hide TypeName, Shown;
  }

  /** Where an arrow cuts the value short, something else is read. */
  lemma ShorterReads(v: Cell, k: nat)
    requires k < |Shown(v)| && !ArrowFree(Shown(v))
    ensures StrToType(TypeName(v), Shown(v)[..k]) != Some(v)
  {
    hide ArrowFree, Decimal, ParseInt;
    if v.VNone? || v.VBool? || v.VInt? {
      ShownIsArrowFree(v);
      assert false;
    }
  }

  /** The UPDATE path drops the last character of the old value, so that only None and False
      survive it. */
  lemma UpdatedReadsIff(column: string, v: Cell, after: Cell)
    requires PlainName(column)
    ensures ReadUpdated(FormatChange(column, v, after)) == Some((column, v)) <==> v == VNone || v == VBool(false)
  {
    hide FormatChange, ReadChange, ReadTyped, Typed, ArrowFree, PlainName, Shown, TypeName, StrToType;
    var p := ChangeReads(column, v, after);
    CutTyped(v, p);
    TypedLength(v);
    var k := p - |TypeName(v)| - 3;
    if k <= 0 {
      TypedReads(v, "");
      EmptyShown(v);
    } else {
      TypedReads(v, Shown(v)[..k - 1]);
      TruncatedReads(v, k - 1);
    }
  }

  lemma EmptyShown(v: Cell)
    ensures v == VNone || v == VBool(false) ==> ArrowFree(Shown(v)) && Shown(v) != ""
  {
    hide ArrowFree;
    if v == VNone || v == VBool(false) { ShownIsArrowFree(v); }
  }

  lemma TruncatedReads(v: Cell, k: nat)
    requires k < |Shown(v)|
    requires ArrowFree(Shown(v)) ==> k == |Shown(v)| - 1
    ensures StrToType(TypeName(v), Shown(v)[..k]) == Some(v) <==> v == VNone || v == VBool(false)
  {
    hide ArrowFree, Decimal, ParseInt;
    if v.VBool? {
      ShownIsArrowFree(v);
      if v.b { assert |Shown(v)[..k]| == 3; } else { assert Shown(v)[..k][0] == 'F'; }
    } else if v.VInt? {
      ShownIsArrowFree(v);
      TruncatedNumber(v.n);
    }
  }

  /** A number without its last digit: a tenth of it, or nothing to read. */
  lemma TruncatedNumber(n: int)
    ensures Decimal(n) != ""
    ensures ParseInt(Decimal(n)[..|Decimal(n)| - 1], 10) == Tenth(n) != Some(n)
  {
    hide Value, IsNumeral, ParseInt;
    var m := if n < 0 then -n else n;
    var d := Digits(m, 10);
    if m < 10 {
      assert |d| == 1;
      NoNumber();
      assert Decimal(n)[..|Decimal(n)| - 1] == if n < 0 then "-" else "";
    } else {
      var e := Digits(m / 10, 10);
      assert d[..|d| - 1] == e;
      ValueOfDigits(m / 10, 10);
      if n < 0 {
        assert Decimal(n)[..|Decimal(n)| - 1] == "-" + e;
        MinusReads(e);
      } else {
        ParseDigits(e, 10);
      }
    }
  }

  /** Division by ten towards zero; `None` where no digit is left. */
  function Tenth(n: int): Option<int>
  {
    if -10 < n < 10 then None else if n < 0 then Some(-(-n / 10)) else Some(n / 10)
  }

  /** What the UPDATE path puts into a column whose text no arrow runs into: the last character
      of the old value is lost.  `None` is an exception. */
  function Truncated(v: Cell): Option<Cell>
  {
    match v
    case VNone => Some(VNone)
    case VBool(_) => Some(VBool(false))
    case VInt(n) => if Tenth(n).None? then None else Some(VInt(Tenth(n).value))
    case VStr(s) => if s == "" then None else Some(VStr(s[..|s| - 1]))
    case VDate(_) => None
  }

  lemma UpdatedReads(column: string, v: Cell, after: Cell)
    requires PlainName(column) && ArrowFree(Shown(v))
    ensures ReadUpdated(FormatChange(column, v, after))
      == if Truncated(v).None? then None else Some((column, Truncated(v).value))
  {
    hide FormatChange, ReadChange, ReadTyped, Typed, ArrowFree, PlainName, Shown, TypeName, StrToType, Truncated;
    var p := ChangeReads(column, v, after);
    CutTyped(v, p);
    TypedLength(v);
    if Shown(v) == "" {
      TypedReads(v, "");
      TruncatedEmpty(v);
    } else {
      TypedReads(v, Shown(v)[..|Shown(v)| - 1]);
      TruncatedType(v);
    }
  }

  lemma TruncatedEmpty(v: Cell)
    requires Shown(v) == ""
    ensures Truncated(v).None?
  {
  }

  lemma TruncatedType(v: Cell)
    requires Shown(v) != ""
    ensures StrToType(TypeName(v), Shown(v)[..|Shown(v)| - 1]) == Truncated(v)
  {
    hide Decimal, ParseInt;
    if v.VBool? {
      assert |Shown(v)[..|Shown(v)| - 1]| == |Shown(v)| - 1;
      if !v.b { assert Shown(v)[..|Shown(v)| - 1][0] == 'F'; }
    } else if v.VInt? {
      TruncatedNumber(v.n);
    }
  }

  /** The logged text of a deleted text column, written out. */
  lemma ChangeText(column: string, text: string)
    ensures FormatChange(column, VStr(text), VNone) == column + ": " + ("[str] " + text + " ----> [NoneType] None")
  {
    hide Typed;
    TypedText(VStr(text), "[str] ");
    TypedText(VNone, "[NoneType] ");
    assert "[NoneType] " + "None" == "[NoneType] None" && " ----> " + "[NoneType] None" == " ----> [NoneType] None";
  }

  lemma TypedText(v: Cell, ty: string)
    requires "[" + TypeName(v) + "] " == ty
    ensures Typed(v) == ty + Shown(v)
  {
    hide TypeName, Shown;
  }

  lemma NoNumber()
    ensures ParseInt("", 10).None? && ParseInt("-", 10).None?
  {
    assert StripLeft("-") == "-" && StripRight("-") == "-";
    assert "-"[1..] == "";
  }

  // --------------------------------------------------------- a whole deleted row

  /** A deleted row: its columns with their values. */
  type Columns = seq<(string, Cell)>

  predicate WellNamed(row: Columns)
  {
    && (forall i :: 0 <= i < |row| ==> PlainName(row[i].0))
    && (forall i, j :: 0 <= i < j < |row| ==> row[i].0 != row[j].0)
    && (forall i :: 0 <= i < |row| && row[i].1.VDate? ==> !Contains(row[i].1.shown, SEPARATOR))
  }

  function Pieces(row: Columns): (r: seq<string>)
    ensures |r| == |row| && forall i :: 0 <= i < |row| ==> r[i] == FormatChange(row[i].0, row[i].1, VNone)
  {
    seq(|row|, i requires 0 <= i < |row| => FormatChange(row[i].0, row[i].1, VNone))
  }

  /** The `changes` text that is logged for a deletion. */
  function FormatRow(row: Columns): string
  {
    JoinWith(SEPARATOR, Pieces(row))
  }

  function MapOf(row: Columns): map<string, Cell>
  {
    if row == [] then map[] else MapOf(row[..|row| - 1])[row[|row| - 1].0 := row[|row| - 1].1]
  }

  function RestoreParts(parts: seq<string>): Option<map<string, Cell>>
  {
    if parts == [] then Some(map[])
    else
      var m := RestoreParts(parts[..|parts| - 1]);
      var c := ReadDeleted(parts[|parts| - 1]);
      if m.None? || c.None? then None else Some(m.value[c.value.0 := c.value.1])
  }

  function Restore(changes: string): Option<map<string, Cell>>
  {
    RestoreParts(Split(changes, SEPARATOR))
  }

  /** The DELETE branch of `rollback_last_change`: the columns of the row to recreate. */
  method RollbackDelete(changes: string) returns (row: Option<map<string, Cell>>)
    ensures row == Restore(changes)
  {
    hide ReadDeleted, Split;
    var parts := Split(changes, SEPARATOR);
    var values: map<string, Cell> := map[];
    for i := 0 to |parts|
      invariant RestoreParts(parts[..i]) == Some(values)
    {
      assert parts[..i + 1][..i] == parts[..i];
      var c := ReadDeleted(parts[i]);
      if c.None? {
        RestoreFails(parts, i + 1);
        return None;
      }
      values := values[c.value.0 := c.value.1];
    }
    assert parts[..|parts|] == parts;
    row := Some(values);
  }

  lemma {:induction false} RestoreFails(parts: seq<string>, n: nat)
    requires n <= |parts| && RestoreParts(parts[..n]).None?
    ensures RestoreParts(parts).None?
    decreases |parts| - n
  {
    hide ReadDeleted;
    if n == |parts| {
      assert parts[..n] == parts;
    } else {
      assert parts[..n + 1][..n] == parts[..n];
      RestoreFails(parts, n + 1);
    }
  }

  /** The values that the DELETE path gives back. */
  predicate Clean(v: Cell)
  {
    !v.VDate? && ArrowFree(Shown(v)) && !Contains(Shown(v), SEPARATOR)
  }

  lemma ShownHasNoBreak(v: Cell)
    requires v.VNone? || v.VBool? || v.VInt?
    ensures '\r' !in Shown(v)
  {
    hide Digits;
    if v.VInt? {
      var d := Digits(if v.n < 0 then -v.n else v.n, 10);
      forall i | 0 <= i < |d| ensures d[i] != '\r' { assert IsDigit(d[i], 10); }
      assert Decimal(v.n) == if v.n < 0 then "-" + d else d;
    }
  }

  lemma NoBreakNoSeparator(s: string)
    requires '\r' !in s
    ensures !Contains(s, SEPARATOR)
  {
    forall i | 0 <= i <= |s| ensures !At(s, SEPARATOR, i) {
      if i + 4 <= |s| { NotAt(s, SEPARATOR, i, 0); }
    }
  }

  lemma NoBreaks(column: string, v: Cell)
    requires PlainName(column)
    ensures var a := column + ": [" + TypeName(v) + "] "; '\r' !in a && '\n' !in a
  {
    hide TypeName, PlainName;
    TypeIsPlain(v);
    PlainHas(column, '\r');
    PlainHas(column, '\n');
    PlainHas(TypeName(v), '\r');
    PlainHas(TypeName(v), '\n');
  }

  /** What stands before and after the value in a logged column. */
  lemma PieceShape(column: string, v: Cell)
    ensures FormatChange(column, v, VNone) == (column + ": [" + TypeName(v) + "] ") + Shown(v) + " ----> [NoneType] None"
  {
    hide TypeName, Shown;
    NoneTyped();
  }

  /** A column's text does not run into the separator. */
  lemma PieceEnds(column: string, v: Cell)
    requires PlainName(column) && !Contains(Shown(v), SEPARATOR)
    ensures EndsAt(FormatChange(column, v, VNone), SEPARATOR)
  {
    hide At, Shown, TypeName, PlainName, FormatChange;
    var a, b := column + ": [" + TypeName(v) + "] ", " ----> [NoneType] None";
    var piece := FormatChange(column, v, VNone);
    PieceShape(column, v);
    NoBreaks(column, v);
    var s := piece + SEPARATOR;
    forall i: nat | i < |piece| ensures !At(s, SEPARATOR, i) {
      if i + 4 <= |piece| {
        AtFront(piece, SEPARATOR, SEPARATOR, i);
        if At(piece, SEPARATOR, i) {
          AtMiddle(a, Shown(v), b, SEPARATOR, i);
          assert false;
        }
      } else {
        assert s[|piece| - 1] == b[|b| - 1];
        NotAt(s, SEPARATOR, i, |piece| - 1 - i);
      }
    }
    SeparatorAt(piece);
    FindIs(s, SEPARATOR, |piece|);
  }

  lemma NoneTyped()
    ensures ARROW + Typed(VNone) == " ----> [NoneType] None"
  {
  }

  lemma SeparatorAt(piece: string)
    ensures At(piece + SEPARATOR, SEPARATOR, |piece|)
  {
  }

  lemma RowSplits(row: Columns)
    requires row != [] && WellNamed(row) && forall i :: 0 <= i < |row| ==> !Contains(Shown(row[i].1), SEPARATOR)
    ensures Split(FormatRow(row), SEPARATOR) == Pieces(row)
  {
    hide FormatChange, Shown, Split, JoinWith, EndsAt, Contains, PlainName;
    forall i | 0 <= i < |row| ensures EndsAt(Pieces(row)[i], SEPARATOR) {
      PieceEnds(row[i].0, row[i].1);
    }
    SplitOfJoin(SEPARATOR, Pieces(row));
  }

  lemma {:induction false} CleanRestores(row: Columns)
    requires WellNamed(row) && forall i :: 0 <= i < |row| ==> Clean(row[i].1)
    ensures RestoreParts(Pieces(row)) == Some(MapOf(row))
    decreases |row|
  {
    hide FormatChange, ReadDeleted, PlainName, ArrowFree, Contains, Shown;
    if row != [] {
      var n := |row| - 1;
      CleanRestores(row[..n]);
      assert Pieces(row)[..n] == Pieces(row[..n]);
      DeletedReadsIff(row[n].0, row[n].1, VNone);
    }
  }

  /** In a restored row, a column holds what its own piece says. */
  lemma {:induction false} RestoredEntry(row: Columns, k: nat)
    requires WellNamed(row) && k < |row| && RestoreParts(Pieces(row)).Some?
    ensures var c := ReadDeleted(Pieces(row)[k]);
      && c.Some? && row[k].0 in RestoreParts(Pieces(row)).value
      && RestoreParts(Pieces(row)).value[row[k].0] == c.value.1
    decreases |row|
  {
    hide FormatChange, ReadDeleted, PlainName, ArrowFree, Contains, Shown;
    var n := |row| - 1;
    assert Pieces(row)[..n] == Pieces(row[..n]);
    DeletedReadsIff(row[n].0, row[n].1, VNone);
    if k < n {
      RestoredEntry(row[..n], k);
      assert row[k].0 != row[n].0;
    }
  }

  lemma {:induction false} MapOfEntry(row: Columns, k: nat)
    requires WellNamed(row) && k < |row|
    ensures row[k].0 in MapOf(row) && MapOf(row)[row[k].0] == row[k].1
    decreases |row|
  {
    hide PlainName, Contains;
    var n := |row| - 1;
    if k < n {
      MapOfEntry(row[..n], k);
      assert row[k].0 != row[n].0;
    }
  }

  /** Text cut out of text is inside it. */
  lemma TextInside(part: string, c: string, on: string, o: string, w: string, x: string, rest: string, ty: string, text: string)
    returns (a: string, b: string)
    requires part == c + on && on == o + w && o == x + rest && rest == ty + text
    ensures part == a + text + b
  {
    a, b := c + (x + ty), w;
    Assoc(x, ty, text);
    Assoc(c, x + ty, text);
    Assoc(c, o, w);
  }

  /** Text read back from a piece without a separator has no separator. */
  lemma ReadHasNoSeparator(part: string)
    requires !Contains(part, SEPARATOR) && ReadDeleted(part).Some? && ReadDeleted(part).value.1.VStr?
    ensures !Contains(ReadDeleted(part).value.1.text, SEPARATOR)
  {
    hide Contains, ParseInt, SplitOnce;
    var text := ReadDeleted(part).value.1.text;
    var outer := SplitOnce(part, ": ").value;
    var values := SplitOnce(outer.1, ARROW).value;
    var rest := Drop(values.0, 1);
    var inner := SplitOnce(rest, "] ").value;
    assert text == inner.1;
    Assoc(values.0, ARROW, values.1);
    SplitHead(values.0);
    var a, b := TextInside(part, outer.0 + ": ", outer.1, values.0, ARROW + values.1,
                           Slice(values.0, 0, 1), rest, inner.0 + "] ", text);
    if Contains(text, SEPARATOR) { ContainsInside(a, text, b, SEPARATOR); }
  }

  lemma SplitHead(s: string)
    ensures s == Slice(s, 0, 1) + Drop(s, 1)
  {
  }

  lemma {:induction false} RestoredHasNoSeparator(parts: seq<string>, name: string)
    requires forall i :: 0 <= i < |parts| ==> !Contains(parts[i], SEPARATOR)
    requires RestoreParts(parts).Some? && name in RestoreParts(parts).value && RestoreParts(parts).value[name].VStr?
    ensures !Contains(RestoreParts(parts).value[name].text, SEPARATOR)
    decreases |parts|
  {
    hide Contains, ReadDeleted;
    if parts != [] {
      var n := |parts| - 1;
      var c := ReadDeleted(parts[n]).value;
      if c.0 == name {
        ReadHasNoSeparator(parts[n]);
      } else {
        RestoredHasNoSeparator(parts[..n], name);
      }
    }
  }

  /** A deleted row comes back exactly if none of its values is a date, holds the separator,
      or has an arrow beginning in it. */
  lemma DeleteUndoneIff(row: Columns)
    requires row != [] && WellNamed(row)
    ensures Restore(FormatRow(row)) == Some(MapOf(row)) <==> forall i :: 0 <= i < |row| ==> Clean(row[i].1)
  {
    hide FormatRow, MapOf, RestoreParts, Split, FormatChange, Contains, PlainName, ArrowFree, ReadDeleted, Shown, WellNamed;
    if k: nat :| k < |row| && Contains(Shown(row[k].1), SEPARATOR) {
      SeparatorSpoils(row, k);
    } else {
      RowSplits(row);
      if forall i :: 0 <= i < |row| ==> Clean(row[i].1) {
        CleanRestores(row);
      } else {
        var k: nat :| k < |row| && !Clean(row[k].1);
        SpoiltEntry(row, k);
      }
    }
  }

  lemma SpoiltEntry(row: Columns, k: nat)
    requires WellNamed(row) && k < |row| && !Clean(row[k].1) && !Contains(Shown(row[k].1), SEPARATOR)
    ensures RestoreParts(Pieces(row)) != Some(MapOf(row))
  {
    hide MapOf, RestoreParts, FormatChange, Contains, ArrowFree, ReadDeleted, Shown;
    DeletedReadsIff(row[k].0, row[k].1, VNone);
    MapOfEntry(row, k);
    if RestoreParts(Pieces(row)).Some? { RestoredEntry(row, k); }
  }

  lemma SeparatorSpoils(row: Columns, k: nat)
    requires WellNamed(row) && k < |row| && Contains(Shown(row[k].1), SEPARATOR)
    ensures !Clean(row[k].1) && Restore(FormatRow(row)) != Some(MapOf(row))
  {
    hide MapOf, RestoreParts, Contains, PlainName, Split, FormatRow;
    var v := row[k].1;
    if v.VNone? || v.VBool? || v.VInt? {
      ShownHasNoBreak(v);
      NoBreakNoSeparator(Shown(v));
      assert false;
    } else {
      MapOfEntry(row, k);
      var parts := Split(FormatRow(row), SEPARATOR);
      forall i | 0 <= i < |parts| ensures !Contains(parts[i], SEPARATOR) { SplitParts(FormatRow(row), SEPARATOR, i); }
      if RestoreParts(parts) == Some(MapOf(row)) {
        RestoredHasNoSeparator(parts, row[k].0);
      }
    }
  }

  /** Values that are lost: dates, any text that starts with the head or ends in the shaft of an
      arrow, and any text with the separator in it.  One such column spoils the whole row. */
  lemma LostValues(row: Columns, k: nat, a: string, b: string)
    requires WellNamed(row) && k < |row|
    requires row[k].1.VDate? || row[k].1 == VStr(a + "\r\n\r\n" + b)
      || row[k].1 == VStr("----> " + b) || row[k].1 == VStr(a + " ---->")
    ensures Restore(FormatRow(row)) != Some(MapOf(row))
  {
    hide FormatRow, MapOf, Restore, WellNamed, Contains;
    var v := row[k].1;
    if v == VStr("----> " + b) {
      assert " " + ("----> " + b) + " ---->" == "" + ARROW + (b + " ---->");
      ContainsBetween("", ARROW, b + " ---->");
    } else if v == VStr(a + "\r\n\r\n" + b) {
      ContainsBetween(a, SEPARATOR, b);
    } else if v == VStr(a + " ---->") {
      assert " " + (a + " ---->") + " ---->" == " " + a + ARROW + "---->";
      ContainsBetween(" " + a, ARROW, "---->");
    }
    DeleteUndoneIff(row);
  }

  lemma ContainsBetween(a: string, pat: string, b: string)
    ensures Contains(a + pat + b, pat)
  {
    assert At(a + pat + b, pat, |a|);
  }
}
