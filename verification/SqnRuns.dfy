/** Whole runs of the authentication exchange: an HSS record, a card, at most one challenge
    under way, and the re-synchronisation of section 6.3.5 of TS 33.102. */
module SqnRuns {
  import opened PyText
  import opened Octets
  import opened Milenage
  import opened AuthVectors
  import opened AuthCentre

  /** A challenge (RAND, AUTN) or the answer to a refused one (RAND, AUTS). */
  datatype Token = Token(rand: seq<Byte>, bytes: seq<Byte>)

  /** `hss` is the stored value, `card` the highest value the card has accepted. */
  datatype State = State(hss: nat, card: nat, challenge: Option<Token>, failure: Option<Token>)

  /** `Issue` stands for one "air", "sip_auth" or "eap_aka" call; a challenge that was still
      under way is lost, and so is an unanswered failure. */
  datatype Event = Issue(rand: seq<Byte>) | Deliver | Resync

  function Next(s: Subscription, st: State, e: Event): State
  {
    match e
    case Issue(rand) => OnIssue(s, st, rand)
    case Deliver => if st.challenge.None? then st else OnDeliver(s, st, st.challenge.value)
    case Resync => if st.failure.None? then st else OnResync(s, st, st.failure.value)
  }

  /** A stored value that cannot be printed raises, and nothing changes. */
  function OnIssue(s: Subscription, st: State, rand: seq<Byte>): State
  {
    var b := SqnBytes(st.hss);
    if b.None? then st
    else State(st.hss + SQN_STEP, st.card, Some(Token(rand, GenerateAutn(s, b.value, rand))), None)
  }

  function OnDeliver(s: Subscription, st: State, t: Token): State
  {
    match CardAnswer(s, st.card, t.rand, t.bytes)
    case Accepted(sqn, _) => State(st.hss, sqn, None, None)
    case SyncFailure(auts) => State(st.hss, st.card, None, Some(Token(t.rand, auts)))
    case MacFailure => State(st.hss, st.card, None, None)
  }

  function OnResync(s: Subscription, st: State, t: Token): State
  {
    var r := GenerateResync(s, t.bytes, t.rand);
    if r.None? then st.(failure := None) else st.(hss := r.value.0 + SQN_STEP, failure := None)
  }

  function Run(s: Subscription, st: State, es: seq<Event>): State
  {
    if es == [] then st else Next(s, Run(s, st, es[..|es| - 1]), es[|es| - 1])
  }

  ghost predicate Fair(es: seq<Event>)
  {
    forall i :: 0 <= i < |es| && es[i].Issue? ==> |es[i].rand| == BLOCK
  }

  /** Any stored values at all: the HSS may be far behind the card. */
  ghost predicate Initial(st: State)
  {
    st.hss < SQN_LIMIT + SQN_STEP && st.card < SQN_LIMIT && st.challenge.None? && st.failure.None?
  }

  /** A challenge under way carries the last value issued. */
  ghost predicate ChallengeIsLatest(s: Subscription, st: State)
  {
    st.challenge.Some? ==>
      && SQN_STEP <= st.hss && st.hss - SQN_STEP < SQN_LIMIT
      && |st.challenge.value.rand| == BLOCK
      && SqnBytes(st.hss - SQN_STEP).Some?
      && st.challenge.value.bytes == GenerateAutn(s, SqnBytes(st.hss - SQN_STEP).value, st.challenge.value.rand)
  }

  /** A pending failure was made by the card as it is now, which was not behind the HSS. */
  ghost predicate FailureIsCurrent(s: Subscription, st: State)
  {
    st.failure.Some? ==>
      && st.challenge.None? && |st.failure.value.rand| == BLOCK
      && GenerateAuts(s, st.failure.value.rand, st.card) == Some(st.failure.value.bytes)
      && st.hss <= st.card + SQN_STEP
  }

  ghost predicate Inv(s: Subscription, st: State)
  {
    && st.hss < SQN_LIMIT + SQN_STEP && st.card < SQN_LIMIT
    && ChallengeIsLatest(s, st) && FailureIsCurrent(s, st)
  }

  /** The HSS is ahead of the card, and so is the challenge under way. */
  predicate InStep(st: State)
  {
    && st.hss > st.card && st.failure.None?
    && (st.challenge.Some? ==> st.hss - SQN_STEP > st.card)
  }

  /** The card's answer to the challenge under way. */
  function Answer(s: Subscription, st: State): CardReply
    requires st.challenge.Some?
  {
    CardAnswer(s, st.card, st.challenge.value.rand, st.challenge.value.bytes)
  }

  /** The card accepts the challenge under way exactly if its value is above its own; it
      never sees a bad MAC. */
  lemma AnswerIff(s: Subscription, st: State)
    requires s.Valid() && Inv(s, st) && st.challenge.Some?
    ensures var q := st.hss - SQN_STEP;
      if q > st.card then Answer(s, st) == Accepted(q, F2F5(s, st.challenge.value.rand).0)
      else Answer(s, st).SyncFailure? && GenerateAuts(s, st.challenge.value.rand, st.card) == Some(Answer(s, st).auts)
  {
    hide CardAnswer, GenerateAutn, GenerateAuts, SqnBytes, F2F5;
    var q := st.hss - SQN_STEP;
    CardReadsAutn(s, q, SqnBytes(q).value, st.card, st.challenge.value.rand);
  }

  lemma IssueStep(s: Subscription, st: State, rand: seq<Byte>)
    requires s.Valid() && Inv(s, st) && |rand| == BLOCK
    ensures var st' := Next(s, st, Issue(rand));
      if st.hss < SQN_LIMIT then
        && st'.hss == st.hss + SQN_STEP && st'.card == st.card && st'.challenge.Some? && st'.failure.None? && Inv(s, st')
      else st' == st
  {
    hide GenerateAutn, SqnBytes, GenerateAuts;
    if st.hss < SQN_LIMIT { SqnBytesRead(st.hss); } else { SqnBytesOverflow(st.hss); }
  }

  lemma DeliverStep(s: Subscription, st: State)
    requires s.Valid() && Inv(s, st) && st.challenge.Some?
    ensures var st' := Next(s, st, Deliver);
      var q := st.hss - SQN_STEP;
      && st'.hss == st.hss && st'.challenge.None? && Inv(s, st')
      && (if q > st.card then st'.card == q && st'.failure.None? else st'.card == st.card && st'.failure.Some?)
  {
    hide CardAnswer, GenerateAutn, GenerateAuts, SqnBytes, F2F5;
    AnswerIff(s, st);
  }

  /** Re-synchronisation puts the HSS exactly one step above the card, never back. */
  lemma ResyncStep(s: Subscription, st: State)
    requires s.Valid() && Inv(s, st) && st.failure.Some?
    ensures var st' := Next(s, st, Resync);
      && st'.hss == st.card + SQN_STEP && st'.hss >= st.hss && st'.card == st.card
      && st'.challenge.None? && st'.failure.None? && Inv(s, st')
  {
    hide GenerateResync, GenerateAuts, GenerateAutn, SqnBytes;
    ResyncInvertsAuts(s, st.failure.value.rand, st.card);
  }

  /** Every step keeps the invariant, never moves the HSS back, and keeps the two in step. */
  lemma StepKeeps(s: Subscription, st: State, e: Event)
    requires s.Valid() && Inv(s, st) && (e.Issue? ==> |e.rand| == BLOCK)
    ensures Inv(s, Next(s, st, e)) && Next(s, st, e).hss >= st.hss
    ensures InStep(st) ==> InStep(Next(s, st, e))
  {
    hide Inv, OnIssue, OnDeliver, OnResync;
    match e
    case Issue(rand) => IssueStep(s, st, rand);
    case Deliver => if st.challenge.Some? { DeliverStep(s, st); }
    case Resync => if st.failure.Some? { ResyncStep(s, st); }
  }

  lemma {:induction false} RunKeeps(s: Subscription, st: State, es: seq<Event>)
    requires s.Valid() && Initial(st) && Fair(es)
    ensures Inv(s, Run(s, st, es))
  {
    hide Next, Inv;
    if es == [] {
      InitialInv(s, st);
    } else {
      RunKeeps(s, st, es[..|es| - 1]);
      StepKeeps(s, Run(s, st, es[..|es| - 1]), es[|es| - 1]);
    }
  }

  lemma InitialInv(s: Subscription, st: State)
    requires Initial(st)
    ensures Inv(s, st)
  {
  }

  /** The events after which the HSS and the card are in step: an answered failure, or an
      accepted challenge. */
  predicate Settles(s: Subscription, st: State, e: Event)
  {
    (e.Resync? && st.failure.Some?) || (e.Deliver? && st.challenge.Some? && Answer(s, st).Accepted?)
  }

  lemma SettlesInStep(s: Subscription, st: State, e: Event)
    requires s.Valid() && Inv(s, st) && Settles(s, st, e)
    ensures InStep(Next(s, st, e))
  {
    hide Inv, Next, Answer;
    if e.Resync? {
      ResyncStep(s, st);
    } else {
      AnswerIff(s, st);
      DeliverStep(s, st);
    }
  }

  lemma {:induction false} StaysInStep(s: Subscription, st: State, es: seq<Event>, i: nat, j: nat)
    requires s.Valid() && Initial(st) && Fair(es) && i <= j <= |es|
    requires InStep(Run(s, st, es[..i]))
    ensures InStep(Run(s, st, es[..j]))
    decreases j
  {
    hide Inv, Next, InStep;
    if i < j {
      StaysInStep(s, st, es, i, j - 1);
      RunKeeps(s, st, es[..j - 1]);
      StepKeeps(s, Run(s, st, es[..j - 1]), es[j - 1]);
      assert es[..j][..j - 1] == es[..j - 1];
    }
  }

  /** After one answered failure, or one accepted challenge, no later challenge of the run
      is ever refused. */
  lemma NeverRefusedAgain(s: Subscription, st: State, es: seq<Event>, i: nat, j: nat)
    requires s.Valid() && Initial(st) && Fair(es) && i < j < |es|
    requires Settles(s, Run(s, st, es[..i]), es[i])
    requires es[j].Deliver? && Run(s, st, es[..j]).challenge.Some?
    ensures Answer(s, Run(s, st, es[..j])).Accepted?
  {
    hide Inv, Next, Settles, Run, Answer;
    RunKeeps(s, st, es[..i]);
    SettlesInStep(s, Run(s, st, es[..i]), es[i]);
    RunNext(s, st, es, i);
    StaysInStep(s, st, es, i + 1, j);
    RunKeeps(s, st, es[..j]);
    AnswerIff(s, Run(s, st, es[..j]));
  }

  lemma RunNext(s: Subscription, st: State, es: seq<Event>, i: nat)
    requires i < |es|
    ensures Run(s, st, es[..i + 1]) == Next(s, Run(s, st, es[..i]), es[i])
  {
    hide Next;
    assert es[..i + 1][..i] == es[..i];
  }

  /** A refused challenge followed by one re-synchronisation: the next challenge, issued with
      a value that still fits in 48 bits, is accepted. */
  lemma OneResyncSuffices(s: Subscription, st: State, rand: seq<Byte>)
    requires s.Valid() && Inv(s, st) && st.challenge.Some? && Answer(s, st).SyncFailure?
    requires |rand| == BLOCK && st.card + SQN_STEP < SQN_LIMIT
    ensures var st' := Next(s, Next(s, Next(s, st, Deliver), Resync), Issue(rand));
      st'.challenge.Some? && Answer(s, st').Accepted? && Answer(s, st').sqn == st.card + SQN_STEP
  {
    hide Inv, Next, Answer;
    AnswerIff(s, st);
    DeliverStep(s, st);
    var failed := Next(s, st, Deliver);
    ResyncStep(s, failed);
    var ready := Next(s, failed, Resync);
    IssueStep(s, ready, rand);
    AnswerIff(s, Next(s, ready, Issue(rand)));
  }

  lemma {:induction false} HssNeverGoesBack(s: Subscription, st: State, es: seq<Event>, i: nat, j: nat)
    requires s.Valid() && Initial(st) && Fair(es) && i <= j <= |es|
    ensures Run(s, st, es[..i]).hss <= Run(s, st, es[..j]).hss
    decreases j
  {
    hide Inv, Next;
    if i < j {
      HssNeverGoesBack(s, st, es, i, j - 1);
      RunKeeps(s, st, es[..j - 1]);
      StepKeeps(s, Run(s, st, es[..j - 1]), es[j - 1]);
      assert es[..j][..j - 1] == es[..j - 1];
    }
  }

  /** The value that an event issues, if any. */
  function Issued(s: Subscription, st: State, e: Event): Option<nat>
  {
    if e.Issue? && SqnBytes(st.hss).Some? then Some(st.hss) else None
  }

  /** Over a whole run, re-synchronisations included, no sequence number is issued twice: each
      is at least 100 above every earlier one. */
  lemma IssuedRise(s: Subscription, st: State, es: seq<Event>, i: nat, j: nat)
    requires s.Valid() && Initial(st) && Fair(es) && i < j < |es|
    requires Issued(s, Run(s, st, es[..i]), es[i]).Some? && Issued(s, Run(s, st, es[..j]), es[j]).Some?
    ensures Issued(s, Run(s, st, es[..j]), es[j]).value >= Issued(s, Run(s, st, es[..i]), es[i]).value + SQN_STEP
  {
    hide Run, SqnBytes, GenerateAutn;
    RunNext(s, st, es, i);
    HssNeverGoesBack(s, st, es, i + 1, j);
  }

  /** How many values are issued by the events from `i` up to `j`. */
  function IssuedCount(s: Subscription, st: State, es: seq<Event>, i: nat, j: nat): nat
    requires i <= j <= |es|
    decreases j
  {
    if i == j then 0
    else IssuedCount(s, st, es, i, j - 1) + if Issued(s, Run(s, st, es[..j - 1]), es[j - 1]).Some? then 1 else 0
  }

  /** Between re-synchronisations the values issued are exactly 100 apart: the stored value
      grows by 100 for each, whatever else happens in between. */
  lemma {:induction false} IssuedByHundreds(s: Subscription, st: State, es: seq<Event>, i: nat, j: nat)
    requires i <= j <= |es|
    requires forall k :: i <= k < j && es[k].Resync? ==> Run(s, st, es[..k]).failure.None?
    ensures Run(s, st, es[..j]).hss == Run(s, st, es[..i]).hss + 100 * IssuedCount(s, st, es, i, j)
    decreases j
  {
    hide Run, CardAnswer, SqnBytes, GenerateAutn, OnResync;
    if i < j {
      IssuedByHundreds(s, st, es, i, j - 1);
      RunNext(s, st, es, j - 1);
    }
  }

  /** The steps of a run are the calls of the stored record: every kind of vector carries the
      AUTN that the run delivers, and `sqn_resync` on the hex text of a failure token sets the
      value that the run goes on with. */
  lemma StepsAreCalls(kdf: Kdf, s: Subscription, st: State, rand: seq<Byte>, plmn: seq<Byte>, t: Token)
    ensures var air, aka := GenerateEutranVector(kdf, s, st.hss, rand, plmn), GenerateAkaVector(s, st.hss, rand);
      && (air.Some? <==> aka.Some?)
      && (air.None? ==> OnIssue(s, st, rand) == st)
      && (air.Some? ==>
            OnIssue(s, st, rand) == State(st.hss + SQN_STEP, st.card, Some(Token(air.value.rand, air.value.autn)), None))
      && (air.Some? ==> aka.value.autn == air.value.autn && aka.value.rand == air.value.rand)
    ensures var sqn := ResyncedSqn(s, Hexlify(t.bytes), t.rand);
      OnResync(s, st, t) == st.(hss := if sqn.Some? then sqn.value else st.hss, failure := None)
  {
    hide GenerateAutn, F2F5, F3, F4, Kasme, SqnBytes, GenerateResync, Hexlify, Unhexlify;
    HexRoundTrip(t.bytes);
  }

  /** Why the failure must be answered before the next challenge: a token made when the card
      stood at `made` re-synchronises a card now at `own` exactly if it is less than one step old. */
  lemma StaleToken(s: Subscription, rand: seq<Byte>, auts: seq<Byte>, made: nat, own: nat, rand': seq<Byte>, b: seq<Byte>)
    requires s.Valid() && |rand| == BLOCK && |rand'| == BLOCK && made <= own < SQN_LIMIT && made + SQN_STEP < SQN_LIMIT
    requires GenerateAuts(s, rand, made) == Some(auts) && SqnBytes(made + SQN_STEP) == Some(b)
    ensures ResyncedSqn(s, Hexlify(auts), rand) == Some(made + SQN_STEP)
    ensures CardAnswer(s, own, rand', GenerateAutn(s, b, rand')).Accepted? <==> own < made + SQN_STEP
  {
    hide GenerateResync, GenerateAuts, GenerateAutn, SqnBytes, Hexlify, Unhexlify, CardAnswer;
    HexRoundTrip(auts);
    ResyncInvertsAuts(s, rand, made);
    CardReadsAutn(s, made + SQN_STEP, b, own, rand');
  }

  // ---------------------------------------------------- the vectors of one answer

  predicate InOrder(order: seq<nat>, size: nat)
  {
    && (forall i :: 0 <= i < |order| ==> order[i] < size)
    && (forall i, j :: 0 <= i < j < |order| ==> order[i] < order[j])
  }

  function Picked(items: seq<AirItem>, order: seq<nat>): (vs: seq<EutranVector>)
    requires InOrder(order, |items|)
    ensures |vs| == |order| && forall i :: 0 <= i < |order| ==> vs[i] == items[order[i]].vector
  {
    seq(|order|, i requires 0 <= i < |order| => items[order[i]].vector)
  }

  /** A card at `own` gets one vector: its value afterwards, or `None` if it refuses the vector
      or answers it with another response than the expected one. */
  function CardTakesOne(s: Subscription, own: nat, v: EutranVector): Option<nat>
  {
    var reply := CardAnswer(s, own, v.rand, v.autn);
    if reply.Accepted? && reply.res == v.xres then Some(reply.sqn) else None
  }

  function CardTakes(s: Subscription, own: nat, vs: seq<EutranVector>): Option<nat>
    decreases |vs|
  {
    if vs == [] then Some(own)
    else
      var sqn := CardTakesOne(s, own, vs[0]);
      if sqn.None? then None else CardTakes(s, sqn.value, vs[1..])
  }

  /** Vectors of one answer used in the order of issue, with any of them left out: a card that
      is below the first one used accepts them all, and ends at the value of the last. */
  lemma {:induction false} BatchAccepted(kdf: Kdf, s: Subscription, plmn: seq<Byte>, rnd: nat -> seq<Byte>, sqn: nat, n: int,
                                         own: nat, order: seq<nat>)
    requires s.Valid() && sqn < SQN_LIMIT && forall k :: |rnd(k)| == BLOCK
    requires InOrder(order, |IssueBatch(kdf, s, plmn, rnd, sqn, n, 0).items|)
    requires order != [] ==> own < sqn + 100 * order[0]
    ensures CardTakes(s, own, Picked(IssueBatch(kdf, s, plmn, rnd, sqn, n, 0).items, order))
      == Some(if order == [] then own else sqn + 100 * order[|order| - 1])
    decreases |order|
  {
    hide IssueBatch, CardAnswer, GenerateEutranVector, Ceiling, CardKasme;
    if order != [] {
      var i := order[0];
      BatchShape(kdf, s, plmn, rnd, sqn, n, 0);
      CeilingOf48Bits(sqn);
      BatchItem(kdf, s, plmn, rnd, sqn, n, 0, i);
      BothEndsAgree(kdf, s, sqn + 100 * i, own, rnd(i), plmn);
      var items := IssueBatch(kdf, s, plmn, rnd, sqn, n, 0).items;
      assert Picked(items, order)[1..] == Picked(items, order[1..]);
      BatchAccepted(kdf, s, plmn, rnd, sqn, n, sqn + 100 * i, order[1..]);
    }
  }
}
