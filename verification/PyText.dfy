/** The Python text primitives that the modelled code is written in: slices,
    `int(text, base)`, `format(n, "x")`, `str.zfill`, `str.split`, `str.replace`
    and `str.join`.  Strings are sequences of characters; where Python raises,
    the model returns `None`. */
module PyText {

  datatype Option<+T> = None | Some(value: T)

  // ---------------------------------------------------------------- slices

  /** Clamps a Python slice bound: negative bounds count from the end. */
  function Bound(len: nat, i: int): (r: nat)
    ensures r <= len
    ensures 0 <= i <= len ==> r == i
  {
    if i < 0 then (if i + len < 0 then 0 else i + len)
    else if i > len then len else i
  }

  /** `s[lo:hi]` */
  function Slice<T>(s: seq<T>, lo: int, hi: int): (r: seq<T>)
    ensures 0 <= lo <= hi <= |s| ==> r == s[lo..hi]
  {
    var l, h := Bound(|s|, lo), Bound(|s|, hi);
    if l <= h then s[l..h] else []
  }

  /** `s[lo:]` */
  function Drop<T>(s: seq<T>, lo: int): (r: seq<T>)
    ensures 0 <= lo <= |s| ==> r == s[lo..]
  {
    s[Bound(|s|, lo)..]
  }

  lemma Assoc<T>(a: seq<T>, b: seq<T>, c: seq<T>)
    ensures (a + b) + c == a + (b + c)
  {
  }

  lemma ConcatTail<T>(a: seq<T>, b: seq<T>)
    requires a != []
    ensures (a + b)[0] == a[0] && (a + b)[1..] == a[1..] + b
  {
  }

  lemma EightIsEven(n: nat)
    requires n % 8 == 0
    ensures n % 2 == 0 && (40 + n) % 8 == 0
  {
    var q := n / 8;
    assert n == 8 * q == 2 * (4 * q);
    assert 40 + n == 8 * (q + 5);
  }

  lemma EightSum(m: nat, n: nat)
    requires m % 8 == 0 && n % 8 == 0
    ensures (m + n) % 8 == 0
  {
    var p, q := m / 8, n / 8;
    assert m + n == 8 * (p + q);
  }

  // --------------------------------------------------------------- numerals

  function DigitVal(c: char): (r: nat)
    ensures r < 36
  {
    if '0' <= c <= '9' then c as int - '0' as int
    else if 'a' <= c <= 'z' then c as int - 'a' as int + 10
    else if 'A' <= c <= 'Z' then c as int - 'A' as int + 10
    else 35
  }

  predicate IsDigit(c: char, base: nat)
  {
    ('0' <= c <= '9' || 'a' <= c <= 'z' || 'A' <= c <= 'Z') && DigitVal(c) < base
  }

  /** `s` is a run of digits of the base, with nothing else in it. */
  predicate AllDigits(s: string, base: nat)
  {
    forall i :: 0 <= i < |s| ==> IsDigit(s[i], base)
  }

  function DigitChar(d: nat): (c: char)
    requires d < 16
    ensures DigitVal(c) == d && ('0' <= c <= '9' || 'a' <= c <= 'f')
  {
    if d < 10 then '0' + d as char else 'a' + (d - 10) as char
  }

  /** The number written by the digits of `s`; underscores are skipped. */
  function Value(s: string, base: nat): nat
  {
    if s == [] then 0
    else
      var rest, c := s[..|s| - 1], s[|s| - 1];
      if c == '_' then Value(rest, base) else Value(rest, base) * base + DigitVal(c)
  }

  /** The shortest numeral for `n`: `format(n, "x")` in base 16, `str(n)` in base 10. */
  function Digits(n: nat, base: nat): (s: string)
    requires 2 <= base <= 16
    ensures s != [] && AllDigits(s, base)
    ensures forall i :: 0 <= i < |s| ==> '0' <= s[i] <= '9' || 'a' <= s[i] <= 'f'
  {
    if n < base then [DigitChar(n)]
    else DivSmaller(n, base); Digits(n / base, base) + [DigitChar(n % base)]
  }

  lemma DivSmaller(n: nat, base: nat)
    requires 2 <= base <= n
    ensures 0 <= n / base < n && n / base * base + n % base == n
  {
    var q := n / base;
    assert n == q * base + n % base;
    assert q * base >= q * 2;
  }

  function Zeros(n: nat): (s: string)
    ensures |s| == n && forall i :: 0 <= i < n ==> s[i] == '0'
  {
    seq(n, _ => '0')
  }

  /** `s.zfill(width)` for a string without a sign. */
  function Zfill(s: string, width: nat): (r: string)
    ensures |r| == if |s| < width then width else |s|
  {
    if |s| < width then Zeros(width - |s|) + s else s
  }

  function Pow(base: nat, e: nat): nat
  {
    if e == 0 then 1 else base * Pow(base, e - 1)
  }

  lemma {:induction false} ValueOfDigits(n: nat, base: nat)
    requires 2 <= base <= 16
    ensures Value(Digits(n, base), base) == n
  {
    if n >= base {
      DivSmaller(n, base);
      ValueOfDigits(n / base, base);
      assert Digits(n, base)[..|Digits(n, base)| - 1] == Digits(n / base, base);
    } else {
      assert [DigitChar(n)][..0] == [];
    }
  }

  lemma {:induction false} ValueOfPadded(k: nat, s: string, base: nat)
    ensures Value(Zeros(k) + s, base) == Value(s, base)
    decreases k + |s|
  {
    var t := Zeros(k) + s;
    if s != [] {
      assert t[..|t| - 1] == Zeros(k) + s[..|s| - 1];
      ValueOfPadded(k, s[..|s| - 1], base);
    } else if k > 0 {
      assert t[..|t| - 1] == Zeros(k - 1) + s;
      ValueOfPadded(k - 1, s, base);
    }
  }

  lemma {:induction false} DigitsWidth(n: nat, base: nat, w: nat)
    requires 2 <= base <= 16 && 1 <= w && n < Pow(base, w)
    ensures |Digits(n, base)| <= w
  {
    if n >= base {
      assert Pow(base, 1) == base;
      DivSmaller(n, base);
      if n / base < Pow(base, w - 1) {
        DigitsWidth(n / base, base, w - 1);
      } else {
        MulMonotone(Pow(base, w - 1), n / base, base);
        assert false;
      }
    }
  }

  lemma MulMonotone(a: nat, b: nat, c: nat)
    requires a <= b
    ensures a * c <= b * c
  {
  }

  /** `format(n, "x").zfill(width)`: a fixed-width field that reads back as `n`. */
  function HexField(n: nat, width: nat): (r: string)
    ensures AllDigits(r, 16)
    ensures |r| >= width && r != []
  {
    Zfill(Digits(n, 16), width)
  }

  lemma HexFieldReads(n: nat, width: nat)
    requires 1 <= width && n < Pow(16, width)
    ensures |HexField(n, width)| == width
    ensures ParseInt(HexField(n, width), 16) == Some(n)
  {
    var d := Digits(n, 16);
    DigitsWidth(n, 16, width);
    ValueOfDigits(n, 16);
    if |d| < width { ValueOfPadded(width - |d|, d, 16); }
    ParseDigits(HexField(n, width), 16);
  }

  lemma HexWidths()
    ensures Pow(16, 8) == 0x1_0000_0000 && Pow(16, 6) == 0x100_0000 && Pow(16, 2) == 0x100
  {
    assert Pow(16, 2) == 0x100;
    assert Pow(16, 4) == 0x1_0000;
    assert Pow(16, 6) == 0x100_0000;
  }

  // ---------------------------------------------------------- int(text, base)

  predicate IsSpace(c: char)
  {
    c == ' ' || '\t' <= c <= '\r'
  }

  function StripLeft(s: string): string
  {
    if s != [] && IsSpace(s[0]) then StripLeft(s[1..]) else s
  }

  function StripRight(s: string): string
  {
    if s != [] && IsSpace(s[|s| - 1]) then StripRight(s[..|s| - 1]) else s
  }

  /** A digit string in which single underscores may stand between digits. */
  predicate IsNumeral(s: string, base: nat)
  {
    && s != [] && IsDigit(s[|s| - 1], base)
    && var rest := s[..|s| - 1];
       (rest == [] || IsNumeral(if rest[|rest| - 1] == '_' then rest[..|rest| - 1] else rest, base))
  }

  lemma {:induction false} DigitsAreNumeral(s: string, base: nat)
    requires s != [] && AllDigits(s, base)
    ensures IsNumeral(s, base)
  {
    if |s| > 1 {
      DigitsAreNumeral(s[..|s| - 1], base);
    }
  }

  /** Drops a leading `0x` (and the one underscore Python allows after it). */
  function StripPrefix(s: string, base: nat): string
  {
    if base == 16 && |s| >= 2 && s[0] == '0' && (s[1] == 'x' || s[1] == 'X') then
      if |s| >= 3 && s[2] == '_' then s[3..] else s[2..]
    else s
  }

  /** `int(s, base)` for ASCII text and base 10 or 16; `None` is ValueError. */
  function ParseInt(s: string, base: nat): Option<int>
  {
    var t := StripRight(StripLeft(s));
    var signed := t != [] && (t[0] == '-' || t[0] == '+');
    var body := StripPrefix(if signed then t[1..] else t, base);
    var magnitude: int := Value(body, base);
    if !IsNumeral(body, base) then None
    else if signed && t[0] == '-' then Some(-magnitude)
    else Some(magnitude)
  }

  lemma ParseDigits(s: string, base: nat)
    requires base <= 16 && s != [] && AllDigits(s, base)
    ensures ParseInt(s, base) == Some(Value(s, base))
  {
    assert IsDigit(s[0], base) && IsDigit(s[|s| - 1], base);
    assert StripLeft(s) == s && StripRight(s) == s;
    if |s| >= 2 { assert IsDigit(s[1], base); }
    assert StripPrefix(s, base) == s;
    DigitsAreNumeral(s, base);
  }

  lemma {:induction false} PowPositive(base: nat, e: nat)
    requires base > 0
    ensures Pow(base, e) > 0
  {
    if e > 0 { PowPositive(base, e - 1); }
  }

  lemma {:induction false} PowMonotone(base: nat, d: nat, e: nat)
    requires base > 0 && d <= e
    ensures Pow(base, d) <= Pow(base, e)
    decreases e
  {
    if d < e {
      PowMonotone(base, d, e - 1);
      MulMonotone(1, base, Pow(base, e - 1));
    }
  }

  lemma OneMoreDigit(v: nat, d: nat, base: nat, p: nat)
    requires v < p && d < base
    ensures v * base + d < base * p
  {
    MulMonotone(v + 1, p, base);
  }

  /** A numeral of n characters stays below base^n. */
  lemma {:induction false} NumeralBound(s: string, base: nat)
    requires 0 < base && IsNumeral(s, base)
    ensures Value(s, base) < Pow(base, |s|)
    decreases |s|
  {
    var rest := s[..|s| - 1];
    if rest == [] {
      assert Pow(base, 1) == base * Pow(base, 0);
    } else {
      var inner := if rest[|rest| - 1] == '_' then rest[..|rest| - 1] else rest;
      NumeralBound(inner, base);
      PowMonotone(base, |inner|, |rest|);
      NumeralValue(rest, inner, base);
      OneMoreDigit(Value(rest, base), DigitVal(s[|s| - 1]), base, Pow(base, |rest|));
    }
  }

  lemma NumeralValue(rest: string, inner: string, base: nat)
    requires rest != [] && inner == if rest[|rest| - 1] == '_' then rest[..|rest| - 1] else rest
    ensures Value(rest, base) == Value(inner, base)
  {
  }

  /** A number of at most w digits is below base^w. */
  lemma DigitsBelow(n: nat, w: nat)
    requires |Digits(n, 16)| <= w
    ensures n < Pow(16, w)
  {
    hide Digits, Value;
    ValueOfDigits(n, 16);
    DigitsAreNumeral(Digits(n, 16), 16);
    NumeralBound(Digits(n, 16), 16);
    PowMonotone(16, |Digits(n, 16)|, w);
  }

  lemma {:induction false} StripLeftShorter(s: string)
    ensures |StripLeft(s)| <= |s|
  {
    if s != [] { StripLeftShorter(s[1..]); }
  }

  lemma {:induction false} StripRightShorter(s: string)
    ensures |StripRight(s)| <= |s|
  {
    if s != [] { StripRightShorter(s[..|s| - 1]); }
  }

  /** What `int(text, base)` can return for a text of at most `w` characters. */
  lemma ParseBound(s: string, base: nat, w: nat)
    requires 0 < base && |s| <= w && ParseInt(s, base).Some?
    ensures ParseInt(s, base).value < Pow(base, w)
  {
    hide IsNumeral, Value;
    StripLeftShorter(s);
    StripRightShorter(StripLeft(s));
    var t := StripRight(StripLeft(s));
    var signed := t != [] && (t[0] == '-' || t[0] == '+');
    var body := StripPrefix(if signed then t[1..] else t, base);
    NumeralBound(body, base);
    PowMonotone(base, |body|, w);
  }

  /** `str(n)` for an integer. */
  function Decimal(n: int): string
  {
    if n < 0 then "-" + Digits(-n, 10) else Digits(n, 10)
  }

  lemma DecimalReads(n: int)
    ensures ParseInt(Decimal(n), 10) == Some(n)
  {
    hide Value, Digits, IsNumeral;
    var d := Digits(if n < 0 then -n else n, 10);
    ValueOfDigits(if n < 0 then -n else n, 10);
    if n < 0 {
      MinusReads(d);
    } else {
      hide ParseInt;
      ParseDigits(d, 10);
    }
  }

  lemma MinusReads(d: string)
    requires d != [] && AllDigits(d, 10)
    ensures ParseInt("-" + d, 10) == Some(-(Value(d, 10) as int))
  {
    hide Value, IsNumeral;
    var t := "-" + d;
    assert IsDigit(d[|d| - 1], 10) && t[|t| - 1] == d[|d| - 1];
    assert StripLeft(t) == t && StripRight(t) == t;
    assert t[1..] == d;
    DigitsAreNumeral(d, 10);
  }

  lemma {:induction false} StripBlanks(a: string, s: string, b: string)
    requires s != [] && !IsSpace(s[0]) && !IsSpace(s[|s| - 1])
    requires (forall i :: 0 <= i < |a| ==> IsSpace(a[i])) && forall i :: 0 <= i < |b| ==> IsSpace(b[i])
    ensures StripRight(StripLeft(a + s + b)) == s
    decreases |a| + |b|
  {
    var t := a + s + b;
    if a != [] {
      StripBlanks(a[1..], s, b);
      assert t[1..] == a[1..] + s + b;
    } else if b != [] {
      StripBlanks(a, s, b[..|b| - 1]);
      assert t[..|t| - 1] == a + s + b[..|b| - 1];
      assert StripLeft(t) == t && StripLeft(t[..|t| - 1]) == t[..|t| - 1];
    } else {
      assert t == s;
    }
  }

  /** The other forms of a number that `int` takes: blanks around it, a sign, and `0x` in base 16. */
  lemma OtherForms(a: string, d: string, b: string, base: nat)
    requires 2 <= base <= 16 && d != [] && AllDigits(d, base)
    requires (forall i :: 0 <= i < |a| ==> IsSpace(a[i])) && forall i :: 0 <= i < |b| ==> IsSpace(b[i])
    ensures ParseInt(a + d + b, base) == Some(Value(d, base))
    ensures ParseInt(a + ("+" + d) + b, base) == Some(Value(d, base))
    ensures ParseInt(a + ("-" + d) + b, base) == Some(-(Value(d, base) as int))
    ensures base == 16 ==> ParseInt(a + ("0x" + d) + b, base) == Some(Value(d, base))
  {
    hide Value, IsNumeral, StripLeft, StripRight;
    assert IsDigit(d[0], base) && IsDigit(d[|d| - 1], base);
    if |d| >= 2 { assert IsDigit(d[1], base); }
    assert ("+" + d)[1..] == d && ("-" + d)[1..] == d && ("0x" + d)[2..] == d;
    DigitsAreNumeral(d, base);
    StripBlanks(a, d, b);
    StripBlanks(a, "+" + d, b);
    StripBlanks(a, "-" + d, b);
    StripBlanks(a, "0x" + d, b);
  }

  // ------------------------------------------------- find, split, join, replace

  /** `pat` stands in `s` at position `i`. */
  predicate At(s: string, pat: string, i: nat)
  {
    i + |pat| <= |s| && s[i..i + |pat|] == pat
  }

  predicate Contains(s: string, pat: string)
  {
    exists i :: 0 <= i <= |s| && At(s, pat, i)
  }

  /** The first position at or after `from` where `pat` stands, or `None`. */
  function Find(s: string, pat: string, from: nat): (r: Option<nat>)
    ensures r.Some? ==> from <= r.value && At(s, pat, r.value)
    ensures r.Some? ==> forall i: nat :: from <= i < r.value ==> !At(s, pat, i)
    ensures r.None? ==> forall i: nat :: from <= i ==> !At(s, pat, i)
    decreases |s| - from
  {
    if from + |pat| > |s| then None
    else if s[from..from + |pat|] == pat then Some(from)
    else Find(s, pat, from + 1)
  }

  /** `s.replace(old, new)` */
  function Replace(s: string, old_: string, new_: string): string
    requires old_ != ""
    decreases |s|
  {
    var i := Find(s, old_, 0);
    if i.None? then s else s[..i.value] + new_ + Replace(s[i.value + |old_|..], old_, new_)
  }

  /** `s.split(sep, 1)`, where both parts are wanted; `None` if the separator is missing. */
  function SplitOnce(s: string, sep: string): (r: Option<(string, string)>)
    ensures r.Some? ==> s == r.value.0 + sep + r.value.1
  {
    var i := Find(s, sep, 0);
    if i.None? then None else Some((s[..i.value], s[i.value + |sep|..]))
  }

  /** `s.split(sep)` */
  function Split(s: string, sep: string): (r: seq<string>)
    requires sep != ""
    ensures r != []
    decreases |s|
  {
    var i := Find(s, sep, 0);
    if i.None? then [s] else [s[..i.value]] + Split(s[i.value + |sep|..], sep)
  }

  /** `sep.join(parts)` */
  function JoinWith(sep: string, parts: seq<string>): string
  {
    if parts == [] then "" else if |parts| == 1 then parts[0]
    else parts[0] + sep + JoinWith(sep, parts[1..])
  }

  /** Whether `pat` stands at `i` depends only on the text up to its end. */
  lemma AtFront(s: string, t: string, pat: string, i: nat)
    requires i + |pat| <= |s|
    ensures At(s + t, pat, i) <==> At(s, pat, i)
  {
    assert (s + t)[i..i + |pat|] == s[i..i + |pat|];
  }

  lemma AtChars(s: string, pat: string, i: nat, k: nat)
    requires At(s, pat, i) && k < |pat|
    ensures s[i + k] == pat[k]
  {
    assert s[i..i + |pat|][k] == s[i + k];
  }

  /** A separator whose first character is new is found right after the text before it. */
  lemma FindFresh(a: string, pat: string, t: string)
    requires pat != "" && pat[0] !in a
    ensures Find(a + pat + t, pat, 0) == Some(|a|)
    ensures SplitOnce(a + pat + t, pat) == Some((a, t))
  {
    var s := a + pat + t;
    assert s[|a|..|a| + |pat|] == pat;
    forall i: nat | i < |a| ensures !At(s, pat, i) {
      if At(s, pat, i) { AtChars(s, pat, i, 0); }
      assert s[i] == a[i];
    }
    FindIs(s, pat, |a|);
  }

  lemma FindIs(s: string, pat: string, i: nat)
    requires At(s, pat, i) && forall j: nat :: j < i ==> !At(s, pat, j)
    ensures Find(s, pat, 0) == Some(i)
  {
  }

  /** No earlier separator starts inside `p` when `sep` follows it. */
  predicate EndsAt(p: string, sep: string)
  {
    Find(p + sep, sep, 0) == Some(|p|)
  }

  lemma FindEnd(p: string, sep: string, t: string)
    requires EndsAt(p, sep)
    ensures Find(p + sep + t, sep, 0) == Some(|p|)
  {
    forall i: nat | i <= |p| ensures At(p + sep + t, sep, i) <==> At(p + sep, sep, i) {
      AtFront(p + sep, t, sep, i);
    }
    FindIs(p + sep + t, sep, |p|);
  }

  /** Splitting undoes joining when no part runs into its separator. */
  lemma {:induction false} SplitOfJoin(sep: string, parts: seq<string>)
    requires sep != "" && parts != []
    requires forall i :: 0 <= i < |parts| ==> EndsAt(parts[i], sep)
    ensures Split(JoinWith(sep, parts), sep) == parts
    decreases |parts|
  {
    hide Find;
    if |parts| == 1 {
      NotInside(parts[0], sep);
    } else {
      var rest := JoinWith(sep, parts[1..]);
      FindEnd(parts[0], sep, rest);
      SplitOfJoin(sep, parts[1..]);
      assert (parts[0] + sep + rest)[..|parts[0]|] == parts[0];
      assert (parts[0] + sep + rest)[|parts[0]| + |sep|..] == rest;
    }
  }

  lemma NotInside(p: string, sep: string)
    requires sep != "" && EndsAt(p, sep)
    ensures Find(p, sep, 0).None?
  {
    var r := Find(p, sep, 0);
    if r.Some? { AtFront(p, sep, sep, r.value); }
  }

  /** A part of a split does not contain the separator. */
  lemma {:induction false} SplitParts(s: string, sep: string, k: nat)
    requires sep != "" && k < |Split(s, sep)|
    ensures !Contains(Split(s, sep)[k], sep)
    decreases |s|
  {
    var i := Find(s, sep, 0);
    if i.Some? {
      if k == 0 {
        PrefixHasNone(s, sep, i.value);
      } else {
        SplitParts(s[i.value + |sep|..], sep, k - 1);
      }
    }
  }

  lemma PrefixHasNone(s: string, sep: string, n: nat)
    requires n <= |s| && sep != "" && forall j: nat :: j < n ==> !At(s, sep, j)
    ensures !Contains(s[..n], sep)
  {
    forall i | 0 <= i <= n ensures !At(s[..n], sep, i) {
      if i + |sep| <= n {
        AtFront(s[..n], s[n..], sep, i);
        assert s == s[..n] + s[n..];
      }
    }
  }

  /** Text inside other text: what it contains, the whole contains. */
  lemma ContainsInside(a: string, s: string, b: string, pat: string)
    requires Contains(s, pat)
    ensures Contains(a + s + b, pat)
  {
    var i :| 0 <= i <= |s| && At(s, pat, i);
    assert (a + s + b)[|a| + i..|a| + i + |pat|] == s[i..i + |pat|];
    assert At(a + s + b, pat, |a| + i);
  }

  /** A pattern standing in `a + s + b` stands inside `s`, if neither `a` nor `b` has any
      of its characters. */
  lemma AtMiddle(a: string, s: string, b: string, pat: string, i: nat)
    requires pat != "" && At(a + s + b, pat, i)
    requires forall k :: 0 <= k < |pat| ==> pat[k] !in a && pat[k] !in b
    ensures |a| <= i && i + |pat| <= |a| + |s| && At(s, pat, i - |a|)
  {
    var t := a + s + b;
    AtChars(t, pat, i, 0);
    AtChars(t, pat, i, |pat| - 1);
    assert t[i..i + |pat|] == s[i - |a|..i - |a| + |pat|];
  }

  /** The parts of a split, joined again, are the text. */
  lemma {:induction false} JoinOfSplit(s: string, sep: string)
    requires sep != ""
    ensures JoinWith(sep, Split(s, sep)) == s
    decreases |s|
  {
    var i := Find(s, sep, 0);
    if i.Some? {
      var rest := s[i.value + |sep|..];
      JoinOfSplit(rest, sep);
      assert Split(s, sep)[1..] == Split(rest, sep);
      assert s == s[..i.value] + sep + rest;
    }
  }

  /** `s.replace(old, new)` puts `new` between the parts that `s.split(old)` gives. */
  lemma {:induction false} ReplaceIsJoin(s: string, old_: string, new_: string)
    requires old_ != ""
    ensures Replace(s, old_, new_) == JoinWith(new_, Split(s, old_))
    decreases |s|
  {
    var i := Find(s, old_, 0);
    if i.Some? {
      var rest := s[i.value + |old_|..];
      ReplaceIsJoin(rest, old_, new_);
      assert Split(s, old_)[1..] == Split(rest, old_);
    }
  }

  /** Text in which no match begins is kept in front. */
  lemma ReplaceSkips(a: string, rest: string, old_: string, new_: string)
    requires old_ != "" && forall i: nat :: i < |a| ==> !At(a + rest, old_, i)
    ensures Replace(a + rest, old_, new_) == a + Replace(rest, old_, new_)
  {
    hide Find, At;
    FindSkips(a, rest, old_);
    var i := Find(rest, old_, 0);
    if i.Some? { CutBehind(a, rest, i.value, |old_|); }
  }

  lemma CutBehind(a: string, rest: string, i: nat, n: nat)
    requires i + n <= |rest|
    ensures (a + rest)[..|a| + i] == a + rest[..i] && (a + rest)[|a| + i + n..] == rest[i + n..]
  {
  }

  lemma AtBehind(a: string, rest: string, pat: string, i: nat)
    ensures At(a + rest, pat, |a| + i) <==> At(rest, pat, i)
  {
    if i + |pat| <= |rest| { assert (a + rest)[|a| + i..|a| + i + |pat|] == rest[i..i + |pat|]; }
  }

  lemma SkipsTo(a: string, rest: string, pat: string, k: nat)
    requires (forall i: nat :: i < |a| ==> !At(a + rest, pat, i)) && forall i: nat :: i < k ==> !At(rest, pat, i)
    ensures forall j: nat :: j < |a| + k ==> !At(a + rest, pat, j)
  {
    hide At;
    forall j: nat | j < |a| + k ensures !At(a + rest, pat, j) {
      if j >= |a| { AtBehind(a, rest, pat, j - |a|); }
    }
  }

  lemma FindSkips(a: string, rest: string, pat: string)
    requires forall i: nat :: i < |a| ==> !At(a + rest, pat, i)
    ensures Find(a + rest, pat, 0) == if Find(rest, pat, 0).None? then None else Some(|a| + Find(rest, pat, 0).value)
    ensures Find(rest, pat, 0).Some? ==> Find(rest, pat, 0).value + |pat| <= |rest|
  {
    hide Find, At;
    var found := Find(rest, pat, 0);
    if found.Some? {
      FoundBehind(a, rest, pat, found.value);
    } else {
      SkipsTo(a, rest, pat, |rest| + 1);
      FindNone(a + rest, pat);
    }
  }

  lemma FoundBehind(a: string, rest: string, pat: string, k: nat)
    requires forall i: nat :: i < |a| ==> !At(a + rest, pat, i)
    requires At(rest, pat, k) && forall i: nat :: i < k ==> !At(rest, pat, i)
    ensures Find(a + rest, pat, 0) == Some(|a| + k) && k + |pat| <= |rest|
  {
    hide Find, At;
    AtBehind(a, rest, pat, k);
    AtFits(rest, pat, k);
    SkipsTo(a, rest, pat, k);
    FindIs(a + rest, pat, |a| + k);
  }

  lemma FindNone(s: string, pat: string)
    requires forall i: nat :: i <= |s| ==> !At(s, pat, i)
    ensures Find(s, pat, 0).None?
  {
    var r := Find(s, pat, 0);
    if r.Some? { AtFits(s, pat, r.value); }
  }

  lemma AtFits(s: string, pat: string, i: nat)
    requires At(s, pat, i)
    ensures i + |pat| <= |s|
  {
  }

  /** A match at the front is replaced. */
  lemma ReplaceFront(rest: string, old_: string, new_: string)
    requires old_ != ""
    ensures Replace(old_ + rest, old_, new_) == new_ + Replace(rest, old_, new_)
  {
    var s := old_ + rest;
    assert s[0..|old_|] == old_ && s[|old_|..] == rest;
    FindIs(s, old_, 0);
    assert s[..0] + new_ == new_;
  }

  /** A pattern across the seam of `a + mid + b` takes in all of `mid`, if neither its first nor
      its last character occurs in `mid`. */
  lemma AtSeam(a: string, mid: string, b: string, pat: string, i: nat)
    requires pat != "" && At(a + mid + b, pat, i)
    requires pat[0] !in mid && pat[|pat| - 1] !in mid && !Contains(pat, mid)
    ensures At(a, pat, i) || (i >= |a| + |mid| && At(b, pat, i - |a| - |mid|))
  {
    var s, n := a + mid + b, |pat|;
    AtChars(s, pat, i, 0);
    AtChars(s, pat, i, n - 1);
    if i + n <= |a| {
      assert a[i..i + n] == s[i..i + n];
    } else if i >= |a| + |mid| {
      assert b[i - |a| - |mid|..i - |a| - |mid| + n] == s[i..i + n];
    } else if i > |a| || (i == |a| && mid != "") {
      assert false;
    } else if i + n <= |a| + |mid| {
      assert false;
    } else {
      var k := |a| - i;
      assert pat[k..k + |mid|] == s[|a|..|a| + |mid|] == mid;
      assert At(pat, mid, k);
      assert false;
    }
  }

  /** Replacing leaves no match behind, of the pattern itself or of one that was not there
      before, if the new text cannot be part of a match. */
  lemma {:induction false} ReplaceLeavesNone(s: string, old_: string, new_: string, pat: string)
    requires old_ != "" && pat != "" && (pat == old_ || !Contains(s, pat))
    requires pat[0] !in new_ && pat[|pat| - 1] !in new_ && !Contains(pat, new_)
    ensures !Contains(Replace(s, old_, new_), pat)
    decreases |s|
  {
    hide Contains;
    var found := Find(s, old_, 0);
    if found.None? {
      if pat == old_ { NoneFound(s, old_); }
    } else {
      var i := found.value;
      var a, rest := s[..i], s[i + |old_|..];
      if pat == old_ {
        PrefixHasNone(s, old_, i);
      } else {
        assert "" + a + s[i..] == s && s[..i + |old_|] + rest + "" == s;
        if Contains(a, pat) { ContainsInside("", a, s[i..], pat); }
        if Contains(rest, pat) { ContainsInside(s[..i + |old_|], rest, "", pat); }
      }
      ReplaceLeavesNone(rest, old_, new_, pat);
      SeamHasNone(a, new_, Replace(rest, old_, new_), pat);
    }
  }

  lemma NoneFound(s: string, pat: string)
    requires Find(s, pat, 0).None?
    ensures !Contains(s, pat)
  {
  }

  lemma SeamHasNone(a: string, mid: string, b: string, pat: string)
    requires pat != "" && !Contains(a, pat) && !Contains(b, pat)
    requires pat[0] !in mid && pat[|pat| - 1] !in mid && !Contains(pat, mid)
    ensures !Contains(a + mid + b, pat)
  {
    if Contains(a + mid + b, pat) {
      var i :| 0 <= i <= |a + mid + b| && At(a + mid + b, pat, i);
      AtSeam(a, mid, b, pat, i);
      assert false;
    }
  }
}
