/** What splicing the address of the UE into a flow template does to its text. */
module Splicing {
  import opened PyText
  import opened ChargingRule

  /** A template as its author thinks of it: literal text and places for the address. */
  datatype Piece = Literal(text: string) | Address(spaced: bool)

  function Written(ps: seq<Piece>): string
  {
    if ps == [] then ""
    else
      (match ps[0]
       case Literal(text) => text
       case Address(spaced) => if spaced then "{{ UE_IP }}" else "{{UE_IP}}") + Written(ps[1..])
  }

  function Filled(ps: seq<Piece>, ueIp: string): string
  {
    if ps == [] then "" else (if ps[0].Literal? then ps[0].text else ueIp) + Filled(ps[1..], ueIp)
  }

  /** The pieces after one of the two replacements. */
  function FilledOnce(ps: seq<Piece>, spaced: bool, ueIp: string): (r: seq<Piece>)
    ensures |r| == |ps|
    ensures forall i :: 0 <= i < |ps| ==> r[i] == if ps[i] == Address(spaced) then Literal(ueIp) else ps[i]
  {
    seq(|ps|, i requires 0 <= i < |ps| => if ps[i] == Address(spaced) then Literal(ueIp) else ps[i])
  }

  /** No literal piece has an opening brace of its own. */
  predicate Braceless(ps: seq<Piece>)
  {
    forall i :: 0 <= i < |ps| && ps[i].Literal? ==> '{' !in ps[i].text
  }

  function Placeholder(spaced: bool): (r: string)
    ensures |r| >= 2 && r[0] == '{' && r[|r| - 1] == '}'
  {
    if spaced then "{{ UE_IP }}" else "{{UE_IP}}"
  }

  /** No placeholder begins in text without an opening brace. */
  lemma LiteralSkips(text: string, rest: string, spaced: bool, ueIp: string)
    requires '{' !in text
    ensures Replace(text + rest, Placeholder(spaced), ueIp) == text + Replace(rest, Placeholder(spaced), ueIp)
  {
    hide Replace, Placeholder;
    forall i: nat | i < |text| ensures !At(text + rest, Placeholder(spaced), i) {
      if At(text + rest, Placeholder(spaced), i) {
        AtChars(text + rest, Placeholder(spaced), i, 0);
      }
    }
    ReplaceSkips(text, rest, Placeholder(spaced), ueIp);
  }

  /** One spelling of the placeholder does not begin in the other. */
  lemma OtherSkips(rest: string, spaced: bool, ueIp: string)
    ensures Replace(Placeholder(!spaced) + rest, Placeholder(spaced), ueIp)
      == Placeholder(!spaced) + Replace(rest, Placeholder(spaced), ueIp)
  {
    hide Replace, At;
    var other, pat := Placeholder(!spaced), Placeholder(spaced);
    forall i: nat | i < |other| ensures !At(other + rest, pat, i) {
      if At(other + rest, pat, i) {
        AtChars(other + rest, pat, i, 0);
        AtChars(other + rest, pat, i, 1);
        AtChars(other + rest, pat, i, 2);
      }
    }
    ReplaceSkips(other, rest, pat, ueIp);
  }

  lemma {:induction false} FillsOnce(ps: seq<Piece>, spaced: bool, ueIp: string)
    requires Braceless(ps)
    ensures Replace(Written(ps), Placeholder(spaced), ueIp) == Written(FilledOnce(ps, spaced, ueIp))
  {
    hide Replace;
    if ps == [] {
      NothingToReplace(spaced, ueIp);
    } else {
      var rest := Written(ps[1..]);
      FillsOnce(ps[1..], spaced, ueIp);
      assert FilledOnce(ps, spaced, ueIp)[1..] == FilledOnce(ps[1..], spaced, ueIp);
      if ps[0].Literal? {
        LiteralSkips(ps[0].text, rest, spaced, ueIp);
      } else if ps[0].spaced == spaced {
        ReplaceFront(rest, Placeholder(spaced), ueIp);
      } else {
        OtherSkips(rest, spaced, ueIp);
      }
    }
  }

  lemma NothingToReplace(spaced: bool, ueIp: string)
    ensures Replace("", Placeholder(spaced), ueIp) == ""
  {
  }

  lemma {:induction false} FilledTwice(ps: seq<Piece>, ueIp: string)
    ensures Written(FilledOnce(FilledOnce(ps, true, ueIp), false, ueIp)) == Filled(ps, ueIp)
  {
    if ps != [] {
      var once := FilledOnce(ps, true, ueIp);
      FilledTwice(ps[1..], ueIp);
      assert once[1..] == FilledOnce(ps[1..], true, ueIp);
      assert FilledOnce(once, false, ueIp)[1..] == FilledOnce(once[1..], false, ueIp);
    }
  }

  /** In every template whose opening braces all belong to placeholders, splicing fills each of
      them, of both spellings, and keeps everything else. */
  lemma SplicedFills(ps: seq<Piece>, direction: nat, ueIp: string)
    requires Braceless(ps) && '{' !in ueIp
    ensures Spliced(Tft(Written(ps), direction), ueIp) == Tft(Filled(ps, ueIp), direction)
  {
    hide Replace, Written, Filled;
    var once := FilledOnce(ps, true, ueIp);
    FillsOnce(ps, true, ueIp);
    FillsOnce(once, false, ueIp);
    FilledTwice(ps, ueIp);
  }

  /** For any template at all: no placeholder is left, if the address has no braces and is not
      itself a piece of a placeholder. */
  lemma SplicedLeavesNone(t: Tft, ueIp: string)
    requires '{' !in ueIp && '}' !in ueIp && !Contains("{{ UE_IP }}", ueIp)
    ensures !Contains(Spliced(t, ueIp).text, "{{ UE_IP }}") && !Contains(Spliced(t, ueIp).text, "{{UE_IP}}")
  {
    hide Replace, Contains;
    var long, short := "{{ UE_IP }}", "{{UE_IP}}";
    if Contains(short, ueIp) { ShortInLong(ueIp); }
    ReplaceLeavesNone(t.text, long, ueIp, long);
    ReplaceLeavesNone(Replace(t.text, long, ueIp), short, ueIp, long);
    ReplaceLeavesNone(Replace(t.text, long, ueIp), short, ueIp, short);
  }

  lemma ShortInLong(ueIp: string)
    requires '{' !in ueIp && '}' !in ueIp && Contains("{{UE_IP}}", ueIp)
    ensures Contains("{{ UE_IP }}", ueIp)
  {
    hide Contains;
    var short, long := "{{UE_IP}}", "{{ UE_IP }}";
    assert "{{" + "UE_IP" + "}}" == short && "{{ " + "UE_IP" + " }}" == long;
    InMiddle("{{", "UE_IP", "}}", ueIp);
    ContainsInside("{{ ", "UE_IP", " }}", ueIp);
  }

  lemma InMiddle(a: string, s: string, b: string, pat: string)
    requires Contains(a + s + b, pat) && forall k :: 0 <= k < |pat| ==> pat[k] !in a && pat[k] !in b
    ensures Contains(s, pat)
  {
    var i: nat :| i <= |a + s + b| && At(a + s + b, pat, i);
    if pat == "" {
      assert At(s, pat, 0);
    } else {
      AtMiddle(a, s, b, pat, i);
    }
  }

  /** The condition on the address is needed: for every piece of the placeholder, the empty one
      included, there is a template that comes out as a placeholder. */
  lemma PlaceholderStays(ueIp: string, i: nat, direction: nat)
    requires At("{{ UE_IP }}", ueIp, i) && 0 < i < 11
    ensures var pat := "{{ UE_IP }}";
      Spliced(Tft(pat[..i] + (pat + pat[i + |ueIp|..]), direction), ueIp).text == pat
  {
    hide Replace, At;
    var pat := "{{ UE_IP }}";
    AtFits(pat, ueIp, i);
    var front, back := pat[..i], pat[i + |ueIp|..];
    FrontOfPlaceholder(i, pat + back);
    ReplaceSkips(front, pat + back, pat, ueIp);
    ReplaceFront(back, pat, ueIp);
    BackOfPlaceholder(i + |ueIp|);
    Untouched(back, pat, ueIp);
    assert pat == front + (ueIp + back) by { PlaceholderCut(ueIp, i); }
    NoShortInside();
    Untouched(pat, "{{UE_IP}}", ueIp);
  }

  /** For addresses without braces: placeholders never stay exactly if the address is no piece of one. */
  lemma SplicingCompleteIff(ueIp: string)
    requires '{' !in ueIp && '}' !in ueIp
    ensures (forall t: Tft :: !Contains(Spliced(t, ueIp).text, "{{ UE_IP }}") && !Contains(Spliced(t, ueIp).text, "{{UE_IP}}"))
      <==> !Contains("{{ UE_IP }}", ueIp)
  {
    hide Spliced, At;
    var pat := "{{ UE_IP }}";
    if Contains(pat, ueIp) {
      var i := InsideAt(ueIp);
      AtFits(pat, ueIp, i);
      var t := Tft(pat[..i] + (pat + pat[i + |ueIp|..]), 0);
      PlaceholderStays(ueIp, i, 0);
      assert Contains(Spliced(t, ueIp).text, pat) by { ContainsItself(pat); }
    } else {
      forall t: Tft ensures !Contains(Spliced(t, ueIp).text, pat) && !Contains(Spliced(t, ueIp).text, "{{UE_IP}}") {
        SplicedLeavesNone(t, ueIp);
      }
    }
  }

  lemma InsideAt(ueIp: string) returns (i: nat)
    requires '{' !in ueIp && Contains("{{ UE_IP }}", ueIp)
    ensures At("{{ UE_IP }}", ueIp, i) && 0 < i < 11
  {
    var pat := "{{ UE_IP }}";
    if ueIp == "" {
      i := 1;
    } else {
      i :| 0 <= i <= |pat| && At(pat, ueIp, i);
      AtChars(pat, ueIp, i, 0);
    }
  }

  lemma ContainsItself(pat: string)
    ensures Contains(pat, pat)
  {
    assert At(pat, pat, 0);
  }

  lemma PlaceholderCut(ueIp: string, i: nat)
    requires At("{{ UE_IP }}", ueIp, i)
    ensures var pat := "{{ UE_IP }}"; pat == pat[..i] + (ueIp + pat[i + |ueIp|..])
  {
  }

  lemma Untouched(s: string, old_: string, new_: string)
    requires old_ != "" && Find(s, old_, 0).None?
    ensures Replace(s, old_, new_) == s
  {
  }

  lemma NoShortInside()
    ensures Find("{{ UE_IP }}", "{{UE_IP}}", 0).None?
  {
    var long, short := "{{ UE_IP }}", "{{UE_IP}}";
    forall i: nat | i <= |long| ensures !At(long, short, i) {
      if At(long, short, i) {
        AtChars(long, short, i, 0);
        AtChars(long, short, i, 1);
        AtChars(long, short, i, 2);
      }
    }
    FindNone(long, short);
  }

  lemma BackOfPlaceholder(n: nat)
    requires 0 < n <= 11
    ensures Find("{{ UE_IP }}"[n..], "{{ UE_IP }}", 0).None?
  {
  }

  lemma FrontOfPlaceholder(n: nat, rest: string)
    requires n < 11 && |rest| >= 11 && rest[..11] == "{{ UE_IP }}"
    ensures forall i: nat :: i < n ==> !At("{{ UE_IP }}"[..n] + rest, "{{ UE_IP }}", i)
  {
    var pat := "{{ UE_IP }}";
    var s := pat[..n] + rest;
    assert s[n] == rest[..11][0] && s[n + 1] == rest[..11][1];
    forall i: nat | i < n ensures !At(s, pat, i) {
      if At(s, pat, i) {
        AtChars(s, pat, i, 0);
        AtChars(s, pat, i, 1);
        AtChars(s, pat, i, 2);
        AtChars(s, pat, i, n - i);
      }
    }
  }

  /** The templates that the generator sends, for a rule whose templates are written in pieces. */
  lemma SplicedAllFills(ts: seq<Tft>, pieces: seq<seq<Piece>>, ueIp: string)
    requires |pieces| == |ts| && '{' !in ueIp
    requires forall i :: 0 <= i < |ts| ==> Braceless(pieces[i]) && ts[i].text == Written(pieces[i])
    ensures forall i :: 0 <= i < |ts| ==> SplicedAll(ts, ueIp)[i] == Tft(Filled(pieces[i], ueIp), ts[i].direction)
  {
    hide Spliced, Braceless, Written, Filled;
    forall i | 0 <= i < |ts| ensures SplicedAll(ts, ueIp)[i] == Tft(Filled(pieces[i], ueIp), ts[i].direction) {
      SplicedFills(pieces[i], ts[i].direction, ueIp);
      assert ts[i] == Tft(Written(pieces[i]), ts[i].direction);
    }
  }
}
