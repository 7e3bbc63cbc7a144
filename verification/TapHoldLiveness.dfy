/**
 * Progress of the tap/hold resolver: while anything is waiting, ticks that come
 * late enough empty it, in a number of ticks bounded by a rank.
 */
module TapHoldLiveness {
  import opened KeyEvents
  import opened Actions
  import opened TapHold
  import opened TapHoldLedger

  function TappingCost(s: State): nat {
    if IsIdle(s) then 0 else if IsUndecided(s) then 2 else 1
  }

  /** How much is left to do: three per postponed record, two for an undecided key. */
  function Rank(s: State): nat { 3 * |s.ring| + TappingCost(s) }

  /** A record that is not consumed leaves the tapping key no further from rest. */
  lemma {:induction false} UnconsumedCost(cfg: Config, s: State, r: Record)
    ensures !Step(cfg, s, r).consumed ==> TappingCost(Step(cfg, s, r).state) <= TappingCost(s)
  {
  }

  lemma {:induction false} DrainRank(cfg: Config, s: State)
    ensures Rank(Drain(cfg, s)) <= Rank(s)
    decreases |s.ring|
  {
    if s.ring != [] {
      var res := Step(cfg, s, s.ring[0]);
      UnconsumedCost(cfg, s, s.ring[0]);
      if res.consumed {
        DrainRank(cfg, Advance(res));
      }
    }
  }

  /** With the tapping key settled, the ring's head is consumed or the key is forgotten. */
  lemma {:induction false} SettledHead(cfg: Config, s: State)
    requires Inv(s) && s.ring != [] && !IsUndecided(s)
    ensures Step(cfg, s, s.ring[0]).consumed || TappingCost(Step(cfg, s, s.ring[0]).state) < TappingCost(s)
  {
  }

  lemma {:induction false} SettledDrain(cfg: Config, s: State)
    requires Inv(s) && s.ring != [] && !IsUndecided(s)
    ensures Rank(Drain(cfg, s)) < Rank(s)
  {
    var res := Step(cfg, s, s.ring[0]);
    SettledHead(cfg, s);
    if res.consumed {
      DrainRank(cfg, Advance(res));
    }
  }

  /** What a tick does before the drain. */
  lemma {:induction false} TickStep(cfg: Config, s: State, tick: Event)
    requires tick.IsTick() && (IsUndecided(s) ==> !WithinTappingTerm(cfg, s, tick))
    ensures var s' := Admit(cfg, s, Record(tick, NO_TAP));
      s'.ring == s.ring && (s' == s || TappingCost(s') < TappingCost(s))
    ensures IsUndecided(s) ==> Admit(cfg, s, Record(tick, NO_TAP)) != s
  {
  }

  /** One late tick makes strict progress while anything is waiting. */
  lemma {:induction false} TickProgress(cfg: Config, s: State, tick: Event)
    requires Inv(s) && tick.IsTick() && Pending(s) != []
    requires IsUndecided(s) ==> !WithinTappingTerm(cfg, s, tick)
    ensures Rank(Process(cfg, s, Record(tick, NO_TAP))) < Rank(s)
  {
    var s' := Admit(cfg, s, Record(tick, NO_TAP));
    TickStep(cfg, s, tick);
    if s' == s {
      SettledDrain(cfg, s);
    } else {
      DrainRank(cfg, s');
    }
  }

  // ---------------------------------------------------------------- many ticks

  /** The time is at least `term` after every press that is waiting. */
  predicate Late(s: State, time: Time16, term: Time16) {
    && (IsUndecided(s) ==> TimerDiff16(time, s.tapping.event.time) >= term)
    && (forall i :: 0 <= i < |s.ring| && s.ring[i].event.pressed ==>
          TimerDiff16(time, s.ring[i].event.time) >= term)
  }

  /** An undecided key is the one there was, or the record offered, which is a press. */
  lemma {:induction false} UndecidedOrigin(cfg: Config, s: State, r: Record)
    ensures var s' := Step(cfg, s, r).state;
      IsUndecided(s') ==> (IsUndecided(s) && s'.tapping.event == s.tapping.event)
                          || (r.event.pressed && s'.tapping.event == r.event)
  {
  }

  lemma {:induction false} StepRingEvents(cfg: Config, s: State, r: Record)
    ensures Events(Step(cfg, s, r).state.ring) == Events(s.ring)
    ensures Step(cfg, s, r).record.event == r.event
  {
  }

  lemma {:induction false} DrainKeepsLate(cfg: Config, s: State, time: Time16, term: Time16)
    requires Late(s, time, term)
    ensures Late(Drain(cfg, s), time, term)
    decreases |s.ring|
  {
    if s.ring != [] {
      var res := Step(cfg, s, s.ring[0]);
      UndecidedOrigin(cfg, s, s.ring[0]);
      StepRingEvents(cfg, s, s.ring[0]);
      AdvanceKeepsLate(s, res, time, term);
      if res.consumed {
        DrainKeepsLate(cfg, Advance(res), time, term);
      }
    }
  }

  lemma {:induction false} AdvanceKeepsLate(s: State, res: StepResult, time: Time16, term: Time16)
    requires s.ring != [] && Late(s, time, term)
    requires Events(res.state.ring) == Events(s.ring) && res.record.event == s.ring[0].event
    requires IsUndecided(res.state) ==>
               || (IsUndecided(s) && res.state.tapping.event == s.tapping.event)
               || (s.ring[0].event.pressed && res.state.tapping.event == s.ring[0].event)
    ensures Late(Advance(res), time, term)
  {
    var es := Events(s.ring);
    forall i | 0 <= i < |Advance(res).ring| && Advance(res).ring[i].event.pressed
      ensures TimerDiff16(time, Advance(res).ring[i].event.time) >= term
    {
      var j := if res.consumed then i + 1 else i;
      assert Advance(res).ring[i].event == es[j] == s.ring[j].event;
    }
  }

  lemma {:induction false} TickKeepsLate(cfg: Config, s: State, tick: Event, time: Time16, term: Time16)
    requires tick.IsTick() && Late(s, time, term)
    ensures Late(Process(cfg, s, Record(tick, NO_TAP)), time, term)
  {
    var r := Record(tick, NO_TAP);
    UndecidedOrigin(cfg, s, r);
    TickLedger(cfg, s, r);
    if IsUndecided(s) && !IsUndecided(Step(cfg, s, r).state) {
      assert Admit(cfg, s, r).ring == s.ring;
    }
    DrainKeepsLate(cfg, Admit(cfg, s, r), time, term);
  }

  lemma {:induction false} TickAtRest(cfg: Config, s: State, tick: Event)
    requires tick.IsTick() && Pending(s) == []
    ensures Pending(Process(cfg, s, Record(tick, NO_TAP))) == []
  {
    assert s.ring == [] by { assert |Pending(s)| == 0; }
  }

  /** Every tick is at least `term` after every press waiting in `s`. */
  predicate LateTicks(s: State, ticks: seq<Event>, term: Time16) {
    forall i :: 0 <= i < |ticks| ==> ticks[i].IsTick() && Late(s, ticks[i].time, term)
  }

  lemma {:induction false} TicksKeepLate(cfg: Config, s: State, ticks: seq<Event>, time: Time16, term: Time16)
    requires LateTicks(s, ticks, term) && Late(s, time, term)
    ensures Late(Run(cfg, s, ticks), time, term)
  {
    if ticks != [] {
      var before := ticks[..|ticks| - 1];
      TicksKeepLate(cfg, s, before, time, term);
      TickKeepsLate(cfg, Run(cfg, s, before), ticks[|ticks| - 1], time, term);
    }
  }

  lemma {:induction false} TicksKeepInv(cfg: Config, s: State, ticks: seq<Event>)
    requires Inv(s) && forall i :: 0 <= i < |ticks| ==> ticks[i].IsTick()
    ensures Inv(Run(cfg, s, ticks))
  {
    if ticks != [] {
      TicksKeepInv(cfg, s, ticks[..|ticks| - 1]);
      ProcessKeepsInv(cfg, Run(cfg, s, ticks[..|ticks| - 1]), Record(ticks[|ticks| - 1], NO_TAP));
    }
  }

  /** Each tick of a late run lowers the rank, until nothing is waiting. */
  lemma {:induction false} TicksLowerRank(cfg: Config, s: State, ticks: seq<Event>, term: Time16)
    requires Inv(s) && LateTicks(s, ticks, term)
    requires forall log, t :: cfg.term(log, t) <= term
    ensures var s' := Run(cfg, s, ticks); Pending(s') == [] || Rank(s') + |ticks| <= Rank(s)
  {
    if ticks != [] {
      var before, tick := ticks[..|ticks| - 1], ticks[|ticks| - 1];
      var mid := Run(cfg, s, before);
      TicksLowerRank(cfg, s, before, term);
      TicksKeepLate(cfg, s, before, tick.time, term);
      TicksKeepInv(cfg, s, before);
      NextTick(cfg, mid, tick, term);
    }
  }

  lemma {:induction false} NextTick(cfg: Config, s: State, tick: Event, term: Time16)
    requires Inv(s) && tick.IsTick() && Late(s, tick.time, term) && cfg.term(s.log, s.tapping) <= term
    ensures var s' := Process(cfg, s, Record(tick, NO_TAP));
      if Pending(s) == [] then Pending(s') == [] else Rank(s') < Rank(s)
  {
    if Pending(s) == [] {
      TickAtRest(cfg, s, tick);
    } else {
      TickProgress(cfg, s, tick);
    }
  }

  /**
   * Liveness: 23 ticks, each a full tapping term (on the wrapping clock) after
   * every waiting press, leave nothing waiting, whatever state they start from.
   */
  lemma {:induction false} LateTicksEmpty(cfg: Config, s: State, ticks: seq<Event>, term: Time16)
    requires Inv(s) && LateTicks(s, ticks, term) && |ticks| >= 23
    requires forall log, t :: cfg.term(log, t) <= term
    ensures Pending(Run(cfg, s, ticks)) == []
  {
    TicksLowerRank(cfg, s, ticks, term);
  }
}
