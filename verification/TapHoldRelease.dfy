/**
 * The matching of TapHoldPairs over whole runs.  In a run of alternating keys that
 * arrive in turn, it holds after every decision exactly when each tap is decided by
 * the key's own release; and that is so unless a key is taken up again without a
 * look at its waiting release.  Then every press is released as what it was pressed.
 */
module TapHoldRelease {
  import opened KeyEvents
  import opened Actions
  import opened TapHold
  import opened TapHoldLedger
  import opened TapHoldOrder
  import opened TapHoldPairs

  // ---------------------------------------------------------------- keys alternate along the line

  predicate AlternatesThroughout(es: seq<Event>) {
    forall i :: 0 < i < |es| ==> es[i].pressed != es[i - 1].pressed
  }

  ghost predicate Turns(s: State) {
    forall key :: AlternatesThroughout(Select(OfKey(key), Line(s)))
  }

  /** A key down in the log was last delivered as a press. */
  lemma {:induction false} DownWasPressed(log: seq<Out>, key: KeyPos)
    requires Paired(log) && key in DownIn(log)
    ensures var own := Select(OfKey(key), Delivered(log)); own != [] && own[|own| - 1].pressed
  {
    var before, o := log[..|log| - 1], log[|log| - 1];
    LogGrows(before, o);
    assert before + [o] == log;
    var d := Delivered(before);
    if o.Handed? || o.LetThrough? {
      var e := o.record.event;
      assert (d + [e])[..|d|] == d;
      if e.key != key {
        DownWasPressed(before, key);
      }
    } else {
      assert d + [] == d;
      DownWasPressed(before, key);
    }
  }

  /** What is delivered next of a key that is down is not a press. */
  lemma {:induction false} NextIsUp(log: seq<Out>, e: Event, rest: seq<Event>)
    requires Paired(log) && e.pressed && AlternatesThroughout(Select(OfKey(e.key), Delivered(log) + ([e] + rest)))
    ensures e.key !in DownIn(log)
  {
    var c, d := OfKey(e.key), Delivered(log);
    SelectConcat(c, d, [e] + rest);
    SelectConcat(c, [e], rest);
    assert [e][..0] == [];
    var own, all := Select(c, d), Select(c, d + ([e] + rest));
    assert all == own + ([e] + Select(c, rest));
    assert all[|own|] == e && (own != [] ==> all[|own| - 1] == own[|own| - 1]);
    if e.key in DownIn(log) {
      DownWasPressed(log, e.key);
    }
  }

  lemma {:induction false} UndecidedIsUp(s: State)
    requires Paired(s.log) && Turns(s) && IsUndecided(s)
    ensures s.tapping.event.key !in DownIn(s.log)
  {
    var e := s.tapping.event;
    assert Line(s) == Delivered(s.log) + ([e] + Events(s.ring));
    assert AlternatesThroughout(Select(OfKey(e.key), Line(s)));
    NextIsUp(s.log, e, Events(s.ring));
  }

  lemma {:induction false} HeadIsUp(s: State)
    requires Paired(s.log) && Turns(s) && !IsUndecided(s) && s.ring != [] && s.ring[0].event.pressed
    ensures s.ring[0].event.key !in DownIn(s.log)
  {
    var e, es := s.ring[0].event, Events(s.ring);
    assert es == [e] + es[1..];
    assert Line(s) == Delivered(s.log) + ([e] + es[1..]);
    assert AlternatesThroughout(Select(OfKey(e.key), Line(s)));
    NextIsUp(s.log, e, es[1..]);
  }

  lemma {:induction false} ArrivalIsUp(s: State, e: Event)
    requires Paired(s.log) && Turns(s) && !IsUndecided(s) && s.ring == [] && e.pressed && Alternates(Line(s), e)
    ensures e.key !in DownIn(s.log)
  {
    assert Line(s) == Delivered(s.log);
    if e.key in DownIn(s.log) {
      DownWasPressed(s.log, e.key);
    }
  }

  // ---------------------------------------------------------------- one decision

  ghost predicate GoodAt(s: State) { Good(s.tapping, s.log, s.ring) }

  /** An arriving release that makes the undecided key a tap is that press's own. */
  predicate OwnArrival(cfg: Config, s: State, e: Event) {
    IsUndecided(s) && WithinTappingTerm(cfg, s, e) && !e.IsTick() && !e.pressed && e.key == s.tapping.event.key ==>
      forall j :: 0 <= j < |s.ring| ==> s.ring[j].event.key != e.key
  }

  lemma {:induction false} AdvanceTurns(cfg: Config, s: State, res: StepResult)
    requires Inv(s) && s.ring != [] && Turns(s) && res == Step(cfg, s, s.ring[0])
    ensures Turns(Advance(res))
  {
    StepLedger(cfg, s, s.ring[0]);
    StepKeepsInv(cfg, s, s.ring[0]);
    forall key
      ensures AlternatesThroughout(Select(OfKey(key), Line(Advance(res))))
    {
      AdvanceOrder(OfKey(key), s, res);
      assert AlternatesThroughout(Select(OfKey(key), Line(s)));
    }
  }

  lemma {:induction false} AdvanceInv(cfg: Config, s: State, res: StepResult)
    requires Inv(s) && s.ring != [] && res == Step(cfg, s, s.ring[0])
    ensures Inv(Advance(res))
  {
    StepKeepsInv(cfg, s, s.ring[0]);
  }

  /** Offering the oldest waiting record. */
  lemma {:induction false} AdvanceExactly(cfg: Config, s: State, res: StepResult)
    requires Inv(s) && s.ring != [] && Turns(s) && GoodAt(s) && res == Step(cfg, s, s.ring[0])
    ensures GoodAt(Advance(res)) <==> (BeginsTap(cfg, s, s.ring[0], res) ==> OwnRelease(cfg, s, s.ring[0]))
  {
    var r := s.ring[0];
    if IsUndecided(s) {
      UndecidedIsUp(s);
    } else if r.event.pressed {
      HeadIsUp(s);
    }
    if !res.consumed {
      UnconsumedExactly(cfg, s, r, res, s.ring, 0);
      RingKept(cfg, s, r, res);
    } else if BeginsTap(cfg, s, r, res) {
      BeginsTapExactly(cfg, s, r, res);
    } else {
      ConsumedGood(cfg, s, r, res, s.ring);
      RingKept(cfg, s, r, res);
    }
  }

  lemma {:induction false} RingKept(cfg: Config, s: State, r: Record, res: StepResult)
    requires Inv(s) && IsFresh(r) && res == Step(cfg, s, r) && !BeginsTap(cfg, s, r, res)
    ensures res.state.ring == s.ring
  {
    StepIsOneOf(cfg, s, r, res);
  }

  /** An untagged record at the end of the queue changes nothing. */
  lemma {:induction false} ArrivalMatched(down: map<KeyPos, bool>, t: Record, q: seq<Record>, r: Record)
    requires Matched(down, t, q) && r.tap.count == 0
    ensures Matched(down, t, q + [r])
  {
    var q' := q + [r];
    forall i | 0 <= i < |q'| && q'[i].tap.count > 0
      ensures TagIsOwn(down, q', i)
    {
      assert TagIsOwn(down, q, i);
    }
    forall key | key in down && down[key]
      ensures Tagged(q', key) || (IsTapDown(t) && t.tap.count > 1 && t.event.key == key)
    {
      if Tagged(q, key) {
        var i :| 0 <= i < |q| && q[i].event.key == key && q[i].tap.count > 0;
        assert q'[i] == q[i];
      }
    }
  }

  lemma {:induction false} OwnArrivalMeans(cfg: Config, s: State, e: Event, res: StepResult)
    requires res == Step(cfg, s, Record(e, NO_TAP))
    ensures var r := Record(e, NO_TAP);
      OwnArrival(cfg, s, e) <==> (TapsFirst(s, r, res) ==> FirstOfKey(s.ring + [r], |s.ring|))
  {
    var q := s.ring + [Record(e, NO_TAP)];
    assert forall j :: 0 <= j < |s.ring| ==> q[j] == s.ring[j];
  }

  /** Offering an arriving event. */
  lemma {:induction false} AdmitExactly(cfg: Config, s: State, e: Event, res: StepResult)
    requires Inv(s) && Turns(s) && GoodAt(s) && res == Step(cfg, s, Record(e, NO_TAP))
    requires ArrivesInTurn(cfg, s, e) && (e.IsTick() || Alternates(Line(s), e))
    ensures GoodAt(Store(res)) <==> OwnArrival(cfg, s, e)
  {
    var r := Record(e, NO_TAP);
    if IsUndecided(s) {
      UndecidedIsUp(s);
    }
    if e.IsTick() {
      StepIsOneOf(cfg, s, r, res);
      KeepsGood(s, r, res, s.ring);
    } else {
      ArrivalMatched(DownIn(s.log), s.tapping, s.ring, r);
      if !res.consumed {
        StoredArrival(cfg, s, e, res);
      } else {
        ConsumedArrival(cfg, s, e, res);
        NotConsumedFirst(cfg, s, e, res);
      }
    }
  }

  /** An event that is consumed does not make the undecided key a tap. */
  lemma {:induction false} NotConsumedFirst(cfg: Config, s: State, e: Event, res: StepResult)
    requires Inv(s) && res == Step(cfg, s, Record(e, NO_TAP)) && res.consumed
    ensures OwnArrival(cfg, s, e)
  {
  }

  lemma {:induction false} StoredArrival(cfg: Config, s: State, e: Event, res: StepResult)
    requires Inv(s) && Good(s.tapping, s.log, s.ring + [Record(e, NO_TAP)]) && !e.IsTick()
    requires res == Step(cfg, s, Record(e, NO_TAP)) && !res.consumed && !Overflows(res)
    requires IsUndecided(s) ==> s.tapping.event.key !in DownIn(s.log)
    ensures GoodAt(Store(res)) <==> OwnArrival(cfg, s, e)
  {
    var r := Record(e, NO_TAP);
    var q := s.ring + [r];
    OwnArrivalMeans(cfg, s, e, res);
    UnconsumedExactly(cfg, s, r, res, q, |s.ring|);
    StepIsOneOf(cfg, s, r, res);
    RingKept(cfg, s, r, res);
    assert q[|s.ring| := res.record] == s.ring + [res.record];
  }

  lemma {:induction false} ConsumedArrival(cfg: Config, s: State, e: Event, res: StepResult)
    requires Inv(s) && Turns(s) && Good(s.tapping, s.log, s.ring + [Record(e, NO_TAP)]) && !e.IsTick()
    requires res == Step(cfg, s, Record(e, NO_TAP)) && res.consumed
    requires KeepsTurn(cfg, s, e) && Alternates(Line(s), e)
    ensures GoodAt(res.state)
  {
    if IsUndecided(s) {
      LetThroughArrival(cfg, s, e, res);
    } else {
      AloneArrival(cfg, s, e, res);
    }
  }

  lemma {:induction false} LetThroughArrival(cfg: Config, s: State, e: Event, res: StepResult)
    requires Inv(s) && Good(s.tapping, s.log, s.ring + [Record(e, NO_TAP)]) && !e.IsTick() && IsUndecided(s)
    requires res == Step(cfg, s, Record(e, NO_TAP)) && res.consumed && Alternates(Line(s), e)
    ensures GoodAt(res.state)
  {
    var r := Record(e, NO_TAP);
    StepIsOneOf(cfg, s, r, res);
    NothingOfItsOwn(s, r);
    NoneOfKey(s.ring, e.key);
    OvertakesGood(s, r, res, s.ring + [r], |s.ring|);
    assert Without(s.ring + [r], |s.ring|) == s.ring;
  }

  lemma {:induction false} AloneArrival(cfg: Config, s: State, e: Event, res: StepResult)
    requires Inv(s) && Turns(s) && Good(s.tapping, s.log, s.ring + [Record(e, NO_TAP)]) && !e.IsTick()
    requires res == Step(cfg, s, Record(e, NO_TAP)) && res.consumed && !IsUndecided(s)
    requires KeepsTurn(cfg, s, e) && Alternates(Line(s), e)
    ensures GoodAt(res.state)
  {
    var r := Record(e, NO_TAP);
    ConsumedAlone(cfg, s, e, res);
    assert s.ring + [r] == [r];
    if e.pressed {
      ArrivalIsUp(s, e);
    }
    ConsumedGood(cfg, s, r, res, [r]);
    RingKept(cfg, s, r, res);
  }

  /** An event that arrives in turn and is consumed finds the ring empty, or a key undecided. */
  lemma {:induction false} ConsumedAlone(cfg: Config, s: State, e: Event, res: StepResult)
    requires Inv(s) && !e.IsTick() && res == Step(cfg, s, Record(e, NO_TAP)) && res.consumed
    requires KeepsTurn(cfg, s, e) && !IsUndecided(s)
    ensures s.ring == [] && !BeginsTap(cfg, s, Record(e, NO_TAP), res)
  {
    if s.ring != [] {
      ConsumedExactlyWhen(cfg, s, Record(e, NO_TAP));
    }
  }

  lemma {:induction false} NoneOfKey(ring: seq<Record>, key: KeyPos)
    requires Select(OfKey(key), Events(ring)) == []
    ensures forall j :: 0 <= j < |ring| ==> ring[j].event.key != key
  {
    forall j | 0 <= j < |ring|
      ensures ring[j].event.key != key
    {
      if Events(ring)[j].key == key {
        SelectLast(OfKey(key), Events(ring), j);
      }
    }
  }

  // ---------------------------------------------------------------- all decisions of a run

  /** Records match at this state and after every further decision of the drain. */
  ghost predicate DrainsGood(cfg: Config, s: State)
    decreases |s.ring|
  {
    && GoodAt(s)
    && (s.ring == [] ||
        var res := Step(cfg, s, s.ring[0]);
        GoodAt(Advance(res)) && (res.consumed ==> DrainsGood(cfg, Advance(res))))
  }

  /** Every tap decided while draining is decided by the key's own release. */
  predicate DrainOwn(cfg: Config, s: State)
    decreases |s.ring|
  {
    s.ring == [] ||
      var res := Step(cfg, s, s.ring[0]);
      && (BeginsTap(cfg, s, s.ring[0], res) ==> OwnRelease(cfg, s, s.ring[0]))
      && (res.consumed ==> DrainOwn(cfg, Advance(res)))
  }

  lemma {:induction false} DrainExactly(cfg: Config, s: State)
    requires Inv(s) && Turns(s) && GoodAt(s)
    ensures DrainsGood(cfg, s) <==> DrainOwn(cfg, s)
    ensures DrainsGood(cfg, s) ==> GoodAt(Drain(cfg, s))
    decreases |s.ring|
  {
    if s.ring != [] {
      var res := Step(cfg, s, s.ring[0]);
      AdvanceExactly(cfg, s, res);
      if res.consumed && GoodAt(Advance(res)) {
        AdvanceTurns(cfg, s, res);
        AdvanceInv(cfg, s, res);
        DrainExactly(cfg, Advance(res));
      }
    }
  }

  /** Records match after every decision of the run. */
  ghost predicate GoodThroughout(cfg: Config, input: seq<Event>) {
    input == [] ||
      var before, e := input[..|input| - 1], input[|input| - 1];
      GoodThroughout(cfg, before) && DrainsGood(cfg, Admit(cfg, Run(cfg, INITIAL, before), Record(e, NO_TAP)))
  }

  /** Every tap of the run is decided by the key's own release. */
  ghost predicate OwnReleases(cfg: Config, input: seq<Event>) {
    input == [] ||
      var before, e := input[..|input| - 1], input[|input| - 1];
      var s := Run(cfg, INITIAL, before);
      && OwnReleases(cfg, before) && OwnArrival(cfg, s, e) && DrainOwn(cfg, Admit(cfg, s, Record(e, NO_TAP)))
  }

  lemma {:induction false} AlternatingArrivals(input: seq<Event>, key: KeyPos)
    requires AlternatingInput(input)
    ensures AlternatesThroughout(Select(OfKey(key), Arrivals(input)))
  {
    if input != [] {
      var before, e := input[..|input| - 1], input[|input| - 1];
      AlternatingArrivals(before, key);
      var es := Arrivals(before);
      if e.IsTick() {
        assert es + [] == es;
      } else {
        assert (es + [e])[..|es|] == es;
      }
    }
  }

  /** Every reachable state of such a run has its keys alternating along the line. */
  lemma {:induction false} RunTurns(cfg: Config, input: seq<Event>)
    requires AlternatingInput(input) && Orderly(cfg, input)
    ensures Turns(Run(cfg, INITIAL, input))
  {
    forall key
      ensures AlternatesThroughout(Select(OfKey(key), Line(Run(cfg, INITIAL, input))))
    {
      RunOrder(cfg, OfKey(key), input);
      AlternatingArrivals(input, key);
    }
  }

  lemma {:induction false} AdmitTurns(cfg: Config, s: State, e: Event, arrivals: seq<Event>)
    requires Inv(s) && ArrivesInTurn(cfg, s, e) && (e.IsTick() || Alternates(Line(s), e))
    requires forall key :: Select(OfKey(key), Line(s)) == Select(OfKey(key), arrivals)
    requires forall key :: AlternatesThroughout(Select(OfKey(key), arrivals + IfEvent(e)))
    ensures Turns(Admit(cfg, s, Record(e, NO_TAP)))
  {
    var r := Record(e, NO_TAP);
    forall key
      ensures AlternatesThroughout(Select(OfKey(key), Line(Admit(cfg, s, r))))
    {
      AdmitOrder(cfg, OfKey(key), s, r);
      SelectConcat(OfKey(key), Line(s), IfEvent(e));
      SelectConcat(OfKey(key), arrivals, IfEvent(e));
      assert Select(OfKey(key), Line(s)) == Select(OfKey(key), arrivals);
      assert AlternatesThroughout(Select(OfKey(key), arrivals + IfEvent(e)));
    }
  }

  /** The last event of a run, and the run before it. */
  predicate Ends(input: seq<Event>, before: seq<Event>, e: Event) {
    input != [] && before == input[..|input| - 1] && e == input[|input| - 1]
  }

  /** What holds before the last call of an alternating run in turn. */
  lemma {:induction false} BeforeLast(cfg: Config, input: seq<Event>, before: seq<Event>, e: Event, s: State)
    requires Ends(input, before, e)
    requires AlternatingInput(input) && Orderly(cfg, input) && s == Run(cfg, INITIAL, before)
    ensures AlternatingInput(before) && Orderly(cfg, before) && ArrivesInTurn(cfg, s, e)
    ensures Inv(s) && Turns(s) && (e.IsTick() || Alternates(Line(s), e))
  {
    RunKeepsInv(cfg, before);
    RunTurns(cfg, before);
    RunOrder(cfg, OfKey(e.key), before);
  }

  /** And after its event is admitted. */
  lemma {:induction false} AfterAdmission(cfg: Config, input: seq<Event>, before: seq<Event>, e: Event, s: State)
    requires Ends(input, before, e)
    requires AlternatingInput(input) && Orderly(cfg, before) && s == Run(cfg, INITIAL, before)
    requires AlternatingInput(before) && ArrivesInTurn(cfg, s, e) && Inv(s) && (e.IsTick() || Alternates(Line(s), e))
    ensures var s' := Admit(cfg, s, Record(e, NO_TAP)); Inv(s') && Turns(s')
  {
    var arrivals := Arrivals(before);
    forall key
      ensures Select(OfKey(key), Line(s)) == Select(OfKey(key), arrivals)
      ensures AlternatesThroughout(Select(OfKey(key), arrivals + IfEvent(e)))
    {
      RunOrder(cfg, OfKey(key), before);
      AlternatingArrivals(input, key);
    }
    AdmitTurns(cfg, s, e, arrivals);
    ProcessKeepsInv(cfg, s, Record(e, NO_TAP));
  }

  lemma {:induction false} LastCall(cfg: Config, input: seq<Event>, before: seq<Event>, e: Event, s: State)
    requires Ends(input, before, e)
    requires AlternatingInput(input) && Orderly(cfg, input) && s == Run(cfg, INITIAL, before)
    ensures AlternatingInput(before) && Orderly(cfg, before) && ArrivesInTurn(cfg, s, e)
    ensures Inv(s) && Turns(s) && (e.IsTick() || Alternates(Line(s), e))
    ensures var s' := Admit(cfg, s, Record(e, NO_TAP)); Inv(s') && Turns(s')
  {
    BeforeLast(cfg, input, before, e, s);
    AfterAdmission(cfg, input, before, e, s);
  }

  lemma {:induction false} CallExactly(cfg: Config, s: State, e: Event)
    requires Inv(s) && Turns(s) && GoodAt(s) && ArrivesInTurn(cfg, s, e) && (e.IsTick() || Alternates(Line(s), e))
    requires var s' := Admit(cfg, s, Record(e, NO_TAP)); Inv(s') && Turns(s')
    ensures var s' := Admit(cfg, s, Record(e, NO_TAP));
      && (DrainsGood(cfg, s') <==> OwnArrival(cfg, s, e) && DrainOwn(cfg, s'))
      && (DrainsGood(cfg, s') ==> GoodAt(Drain(cfg, s')))
  {
    var s' := Admit(cfg, s, Record(e, NO_TAP));
    AdmitExactly(cfg, s, e, Step(cfg, s, Record(e, NO_TAP)));
    if GoodAt(s') {
      DrainExactly(cfg, s');
    }
  }

  /**
   * Over every run of alternating keys arriving in turn, records match after every
   * decision if and only if each tap is decided by the key's own release.
   */
  lemma {:induction false} MatchesExactly(cfg: Config, input: seq<Event>)
    requires AlternatingInput(input) && Orderly(cfg, input)
    ensures GoodThroughout(cfg, input) <==> OwnReleases(cfg, input)
    ensures GoodThroughout(cfg, input) ==> GoodAt(Run(cfg, INITIAL, input))
  {
    if input != [] {
      var before, e := input[..|input| - 1], input[|input| - 1];
      var s := Run(cfg, INITIAL, before);
      LastCall(cfg, input, before, e, s);
      MatchesExactly(cfg, before);
      if GoodThroughout(cfg, before) {
        CallExactly(cfg, s, e);
      }
    }
  }

  // ---------------------------------------------------------------- when each release is the key's own

  /** Times along the line do not decrease and span less than 2^16 ms. */
  predicate InTime(es: seq<Event>) {
    forall j, k :: 0 <= j <= k < |es| ==>
      TimerDiff16(es[j].time, es[0].time) <= TimerDiff16(es[k].time, es[0].time)
  }

  lemma {:induction false} DiffParts(a: Time16, b: Time16, c: Time16)
    requires TimerDiff16(b, a) <= TimerDiff16(c, a)
    ensures TimerDiff16(c, b) == TimerDiff16(c, a) - TimerDiff16(b, a)
  {
  }

  lemma {:induction false} InTimeRest(es: seq<Event>)
    requires InTime(es) && es != []
    ensures InTime(es[1..])
  {
    var rest := es[1..];
    forall j, k | 0 <= j <= k < |rest|
      ensures TimerDiff16(rest[j].time, rest[0].time) <= TimerDiff16(rest[k].time, rest[0].time)
    {
      DiffParts(es[0].time, es[1].time, es[j + 1].time);
      DiffParts(es[0].time, es[1].time, es[k + 1].time);
    }
  }

  /** While a key stays undecided its tapping term does not grow. */
  ghost predicate TermNeverGrows(cfg: Config) {
    forall log: seq<Out>, log': seq<Out>, t: Record, t': Record ::
      log <= log' && t.event == t'.event ==> cfg.term(log', t') <= cfg.term(log, t)
  }

  /**
   * The key just tapped and released is pressed again, too late for a quick tap or
   * after another key, and becomes the tapping key without a look at the waiting
   * records, although one of them would make it a tap.
   */
  predicate TakesUpBlind(cfg: Config, s: State, r: Record) {
    && !IsIdle(s) && !s.tapping.event.pressed && WithinTappingTerm(cfg, s, r.event)
    && !r.event.IsTick() && r.event.pressed && r.event.key == s.tapping.event.key
    && !(WithinQuickTapTerm(cfg, s, r.event) && !s.tapping.tap.interrupted && s.tapping.tap.count > 0)
    && FirstCandidate(cfg, s.(tapping := r), 0) < |s.ring|
  }

  predicate DrainSighted(cfg: Config, s: State)
    decreases |s.ring|
  {
    s.ring == [] ||
      var res := Step(cfg, s, s.ring[0]);
      !TakesUpBlind(cfg, s, s.ring[0]) && (res.consumed ==> DrainSighted(cfg, Advance(res)))
  }

  /** No key of the run is taken up again blindly. */
  ghost predicate Sighted(cfg: Config, input: seq<Event>) {
    input == [] ||
      var before, e := input[..|input| - 1], input[|input| - 1];
      Sighted(cfg, before) && DrainSighted(cfg, Admit(cfg, Run(cfg, INITIAL, before), Record(e, NO_TAP)))
  }

  /** Nothing waits so long that the 16-bit clock could go round. */
  ghost predicate Punctual(cfg: Config, input: seq<Event>) {
    input == [] ||
      var before, e := input[..|input| - 1], input[|input| - 1];
      Punctual(cfg, before) && InTime(Pending(Run(cfg, INITIAL, before)) + IfEvent(e))
  }

  /** No waiting release would make the undecided key a tap. */
  predicate NothingOverlooked(cfg: Config, s: State) {
    IsUndecided(s) ==> forall j :: 0 <= j < |s.ring| ==> !IsTapCandidate(cfg, s, s.ring[j])
  }

  lemma {:induction false} BeginsSighted(cfg: Config, s: State, r: Record, res: StepResult)
    requires Inv(s) && IsFresh(r) && res == Step(cfg, s, r) && Begins(s, r, res) && !TakesUpBlind(cfg, s, r)
    ensures FirstCandidate(cfg, res.state, 0) == |s.ring|
  {
  }

  /** The tapping key stays undecided: what was no tap for it still is none. */
  lemma {:induction false} StillNothing(cfg: Config, s: State, s': State, c: Record)
    requires TermNeverGrows(cfg) && !IsTapCandidate(cfg, s, c)
    requires s.log <= s'.log && s'.tapping.event == s.tapping.event
    ensures !IsTapCandidate(cfg, s', c)
  {
    assert cfg.term(s'.log, s'.tapping) <= cfg.term(s.log, s.tapping);
  }

  lemma {:induction false} AdvanceSighted(cfg: Config, s: State, res: StepResult)
    requires Inv(s) && s.ring != [] && res == Step(cfg, s, s.ring[0]) && TermNeverGrows(cfg)
    requires NothingOverlooked(cfg, s) && !TakesUpBlind(cfg, s, s.ring[0])
    ensures NothingOverlooked(cfg, Advance(res))
  {
    var r, s' := s.ring[0], Advance(res);
    StepIsOneOf(cfg, s, r, res);
    if Begins(s, r, res) {
      BeginsSighted(cfg, s, r, res);
      forall j | 0 <= j < |s'.ring|
        ensures !IsTapCandidate(cfg, s', s'.ring[j])
      {
        assert s'.ring[j] == s.ring[j + 1] && !IsTapCandidate(cfg, res.state, s.ring[j + 1]);
      }
    } else if IsUndecided(s') {
      forall j | 0 <= j < |s'.ring|
        ensures !IsTapCandidate(cfg, s', s'.ring[j])
      {
        StillNothing(cfg, s, s', s'.ring[j]);
      }
    }
  }

  lemma {:induction false} AdmitSighted(cfg: Config, s: State, e: Event, res: StepResult)
    requires Inv(s) && res == Step(cfg, s, Record(e, NO_TAP)) && TermNeverGrows(cfg)
    requires NothingOverlooked(cfg, s) && ArrivesInTurn(cfg, s, e)
    ensures NothingOverlooked(cfg, Store(res))
  {
    var r, s' := Record(e, NO_TAP), Store(res);
    StepIsOneOf(cfg, s, r, res);
    if Begins(s, r, res) {
      ConsumedAlone(cfg, s, e, res);
    } else if IsUndecided(s') {
      forall j | 0 <= j < |s'.ring|
        ensures !IsTapCandidate(cfg, s', s'.ring[j])
      {
        if j < |s.ring| {
          StillNothing(cfg, s, s', s.ring[j]);
        } else {
          StillNothing(cfg, s, s', r);
        }
      }
    }
  }

  lemma {:induction false} FirstSelected(es: seq<Event>, key: KeyPos, i: nat)
    requires i < |es| && es[i].key == key && forall k :: 0 <= k < i ==> es[k].key != key
    ensures Select(OfKey(key), es) != [] && Select(OfKey(key), es)[0] == es[i]
  {
    var c := OfKey(key);
    SelectNone(c, es[..i]);
    assert es == es[..i] + ([es[i]] + es[i + 1..]);
    SelectConcat(c, es[..i], [es[i]] + es[i + 1..]);
    SelectConcat(c, [es[i]], es[i + 1..]);
    assert [es[i]][..0] == [];
  }

  /** After a press, the next event of that key along the line is its release. */
  lemma {:induction false} NextOfKey(front: seq<Event>, e: Event, es: seq<Event>, j: nat) returns (i: nat)
    requires e.pressed && j < |es| && es[j].key == e.key
    requires AlternatesThroughout(Select(OfKey(e.key), front + ([e] + es)))
    ensures i <= j && es[i].key == e.key && !es[i].pressed
  {
    var c := OfKey(e.key);
    i := FirstIndex(es, e.key, j);
    FirstSelected(es, e.key, i);
    SelectConcat(c, front, [e] + es);
    SelectConcat(c, [e], es);
    assert [e][..0] == [] && Select(c, [e]) == [e];
    assert Select(c, front + ([e] + es)) == Select(c, front) + ([e] + Select(c, es));
    Adjacent(Select(c, front), e, Select(c, es));
  }

  lemma {:induction false} Adjacent(a: seq<Event>, e: Event, b: seq<Event>)
    requires b != [] && AlternatesThroughout(a + ([e] + b))
    ensures b[0].pressed != e.pressed
  {
    var all, n := a + ([e] + b), |a|;
    assert all[n] == e && all[n + 1] == b[0];
  }

  function FirstIndex(es: seq<Event>, key: KeyPos, j: nat): (i: nat)
    requires j < |es| && es[j].key == key
    ensures i <= j && es[i].key == key && forall k :: 0 <= k < i ==> es[k].key != key
  {
    if es[0].key == key then 0 else 1 + FirstIndex(es[1..], key, j - 1)
  }

  /** An earlier release of the key is within the term when a later event is. */
  lemma {:induction false} EarlierIsTap(cfg: Config, s: State, es: seq<Event>, i: nat, k: nat, c: Record)
    requires InTime(es) && i <= k < |es| && es[0].time == s.tapping.event.time && es[i] == c.event
    requires WithinTappingTerm(cfg, s, es[k])
    requires !c.event.IsTick() && !c.event.pressed && c.event.key == s.tapping.event.key
    ensures IsTapCandidate(cfg, s, c)
  {
    assert TimerDiff16(es[i].time, es[0].time) <= TimerDiff16(es[k].time, es[0].time);
  }

  lemma {:induction false} ArrivalOwn(cfg: Config, s: State, e: Event)
    requires Inv(s) && Turns(s) && NothingOverlooked(cfg, s) && InTime(Pending(s) + IfEvent(e))
    ensures OwnArrival(cfg, s, e)
  {
    var t := s.tapping.event;
    if IsUndecided(s) && WithinTappingTerm(cfg, s, e) && !e.IsTick() && !e.pressed && e.key == t.key {
      var es, all := Events(s.ring), [t] + Events(s.ring) + [e];
      assert Pending(s) + IfEvent(e) == all && all[|es| + 1] == e;
      assert Line(s) == Delivered(s.log) + ([t] + es);
      assert AlternatesThroughout(Select(OfKey(t.key), Line(s)));
      forall j | 0 <= j < |s.ring|
        ensures s.ring[j].event.key != e.key
      {
        if s.ring[j].event.key == e.key {
          var i := NextOfKey(Delivered(s.log), t, es, j);
          EarlierIsTap(cfg, s, all, i + 1, |es| + 1, s.ring[i]);
        }
      }
    }
  }

  lemma {:induction false} DrainStepOwn(cfg: Config, s: State, res: StepResult)
    requires Inv(s) && s.ring != [] && Turns(s) && InTime(Events(s.ring)) && res == Step(cfg, s, s.ring[0])
    ensures BeginsTap(cfg, s, s.ring[0], res) ==> OwnRelease(cfg, s, s.ring[0])
  {
    var r := s.ring[0];
    var s1 := State(r, s.ring, EndedTap(s, r));
    if BeginsTap(cfg, s, r, res) {
      CandidateIsOwn(cfg, s, s1, Events(s.ring), FirstCandidate(cfg, s1, 0));
    }
  }

  lemma {:induction false} NextInRing(s: State, es: seq<Event>, j: nat) returns (m: nat)
    requires Turns(s) && es == Events(s.ring) && 0 < j < |es| && es[0].pressed && es[j].key == es[0].key
    ensures 0 < m <= j && es[m].key == es[0].key && !es[m].pressed
  {
    assert es == [es[0]] + es[1..] && Line(s) == Front(s) + ([es[0]] + es[1..]);
    assert AlternatesThroughout(Select(OfKey(es[0].key), Line(s)));
    var i := NextOfKey(Front(s), es[0], es[1..], j - 1);
    m := i + 1;
  }

  lemma {:induction false} CandidateIsOwn(cfg: Config, s: State, s1: State, es: seq<Event>, i: nat)
    requires Inv(s) && Turns(s) && s.ring != [] && es == Events(s.ring) && InTime(es)
    requires s1.ring == s.ring && s1.tapping == s.ring[0] && es[0].pressed
    requires i == FirstCandidate(cfg, s1, 0) < |s.ring|
    ensures forall j :: 0 < j < i ==> s.ring[j].event.key != s.ring[0].event.key
  {
    forall j | 0 < j < i
      ensures s.ring[j].event.key != s.ring[0].event.key
    {
      if s.ring[j].event.key == s.ring[0].event.key {
        var m := NextInRing(s, es, j);
        EarlierIsTap(cfg, s1, es, m, i, s.ring[m]);
      }
    }
  }

  lemma {:induction false} DrainOwnInTime(cfg: Config, s: State)
    requires Inv(s) && Turns(s) && InTime(Events(s.ring)) && TermNeverGrows(cfg)
    requires NothingOverlooked(cfg, s) && DrainSighted(cfg, s)
    ensures DrainOwn(cfg, s) && NothingOverlooked(cfg, Drain(cfg, s))
    decreases |s.ring|
  {
    if s.ring != [] {
      var res := Step(cfg, s, s.ring[0]);
      DrainStepOwn(cfg, s, res);
      AdvanceSighted(cfg, s, res);
      if res.consumed {
        AdvanceTurns(cfg, s, res);
        AdvanceInv(cfg, s, res);
        AdvanceInTime(cfg, s, res);
        DrainOwnInTime(cfg, Advance(res));
      }
    }
  }

  lemma {:induction false} AdvanceInTime(cfg: Config, s: State, res: StepResult)
    requires Inv(s) && s.ring != [] && InTime(Events(s.ring)) && res == Step(cfg, s, s.ring[0]) && res.consumed
    ensures InTime(Events(Advance(res).ring))
  {
    StepLedger(cfg, s, s.ring[0]);
    StepKeepsInv(cfg, s, s.ring[0]);
    AdvanceRing(s, res);
    InTimeRest(Events(s.ring));
    assert Events(Advance(res).ring) == Events(s.ring)[1..];
  }

  /** What waits after an event was admitted is what waited before, or that and the event. */
  lemma {:induction false} AdmitInTime(cfg: Config, s: State, e: Event, res: StepResult)
    requires Inv(s) && InTime(Pending(s) + IfEvent(e)) && res == Step(cfg, s, Record(e, NO_TAP))
    requires !Overflows(res)
    ensures InTime(Events(Store(res).ring))
  {
    var es, all := Events(s.ring), Pending(s) + IfEvent(e);
    var r := Record(e, NO_TAP);
    if IsUndecided(s) {
      InTimeRest(all);
      assert all[1..] == es + IfEvent(e);
    } else {
      assert all == es + IfEvent(e);
    }
    StepEvents(cfg, s, r, res);
    if !res.consumed && !e.IsTick() {
      assert Events(Store(res).ring) == es + [e];
    } else {
      assert Events(Store(res).ring) == es;
      InTimePrefix(es + IfEvent(e), |es|);
      assert (es + IfEvent(e))[..|es|] == es;
    }
  }

  lemma {:induction false} StepEvents(cfg: Config, s: State, r: Record, res: StepResult)
    requires IsFresh(r) && res == Step(cfg, s, r)
    ensures Events(res.state.ring) == Events(s.ring) && res.record.event == r.event
  {
    if r.event.IsTick() {
      TickLedger(cfg, s, r);
    } else {
      StepLedger(cfg, s, r);
    }
  }

  lemma {:induction false} InTimePrefix(es: seq<Event>, n: nat)
    requires InTime(es) && n <= |es|
    ensures InTime(es[..n])
  {
  }

  lemma {:induction false} CallOwn(cfg: Config, s: State, e: Event)
    requires Inv(s) && Turns(s) && ArrivesInTurn(cfg, s, e) && InTime(Pending(s) + IfEvent(e)) && TermNeverGrows(cfg)
    requires var s' := Admit(cfg, s, Record(e, NO_TAP)); Inv(s') && Turns(s') && DrainSighted(cfg, s')
    requires NothingOverlooked(cfg, s)
    ensures OwnArrival(cfg, s, e) && DrainOwn(cfg, Admit(cfg, s, Record(e, NO_TAP)))
    ensures NothingOverlooked(cfg, Process(cfg, s, Record(e, NO_TAP)))
  {
    var res := Step(cfg, s, Record(e, NO_TAP));
    ArrivalOwn(cfg, s, e);
    AdmitSighted(cfg, s, e, res);
    AdmitInTime(cfg, s, e, res);
    DrainOwnInTime(cfg, Store(res));
  }

  /** What the conditions on a run say of its last call. */
  lemma {:induction false} LastConditions(cfg: Config, input: seq<Event>, before: seq<Event>, e: Event, s: State)
    requires Ends(input, before, e)
    requires Punctual(cfg, input) && Sighted(cfg, input) && s == Run(cfg, INITIAL, before)
    ensures Punctual(cfg, before) && Sighted(cfg, before)
    ensures InTime(Pending(s) + IfEvent(e)) && DrainSighted(cfg, Admit(cfg, s, Record(e, NO_TAP)))
  {
  }

  lemma {:induction false} OwnNext(cfg: Config, input: seq<Event>, before: seq<Event>, e: Event, s: State)
    requires Ends(input, before, e)
    requires s == Run(cfg, INITIAL, before) && OwnReleases(cfg, before)
    requires OwnArrival(cfg, s, e) && DrainOwn(cfg, Admit(cfg, s, Record(e, NO_TAP)))
    ensures OwnReleases(cfg, input)
    ensures Run(cfg, INITIAL, input) == Process(cfg, s, Record(e, NO_TAP))
  {
  }

  lemma {:induction false} OwnInTime(cfg: Config, input: seq<Event>, s: State)
    requires AlternatingInput(input) && Orderly(cfg, input) && s == Run(cfg, INITIAL, input)
    requires Punctual(cfg, input) && TermNeverGrows(cfg) && Sighted(cfg, input)
    ensures OwnReleases(cfg, input) && NothingOverlooked(cfg, s)
    decreases |input|, 0
  {
    if input != [] {
      var before, e := input[..|input| - 1], input[|input| - 1];
      LastOwn(cfg, input, before, e, Run(cfg, INITIAL, before), s);
    }
  }

  lemma {:induction false} LastOwn(
      cfg: Config, input: seq<Event>, before: seq<Event>, e: Event, s: State, s': State)
    requires Ends(input, before, e)
    requires AlternatingInput(input) && Orderly(cfg, input) && s == Run(cfg, INITIAL, before)
    requires Punctual(cfg, input) && TermNeverGrows(cfg) && Sighted(cfg, input) && s' == Run(cfg, INITIAL, input)
    ensures OwnReleases(cfg, input) && NothingOverlooked(cfg, s')
    decreases |before|, 1
  {
    LastCall(cfg, input, before, e, s);
    LastConditions(cfg, input, before, e, s);
    OwnInTime(cfg, before, s);
    CallOwn(cfg, s, e);
    OwnNext(cfg, input, before, e, s);
  }

  /**
   * Every press is released as what it was pressed, over every run of alternating
   * keys that arrive in turn with nothing waiting as long as the clock takes to go
   * round, unless a key is taken up again without a look at its waiting release.
   */
  lemma {:induction false} ReleasedAsPressed(cfg: Config, input: seq<Event>)
    requires AlternatingInput(input) && Orderly(cfg, input)
    requires Punctual(cfg, input) && TermNeverGrows(cfg) && Sighted(cfg, input)
    ensures GoodThroughout(cfg, input) && GoodAt(Run(cfg, INITIAL, input))
  {
    OwnInTime(cfg, input, Run(cfg, INITIAL, input));
    MatchesExactly(cfg, input);
  }
}
