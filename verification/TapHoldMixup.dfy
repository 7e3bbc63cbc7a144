/**
 * A run that leaves the condition of TapHoldRelease, with all terms as they are by
 * default.  A key that is tapped twice behind a held mod-tap key, with a plain key
 * pressed in between, is taken up again without looking for its waiting release, and
 * a third tap's release turns it into a tap: it is pressed as a tap and released as a
 * hold.
 */
module TapHoldMixup {
  import opened KeyEvents
  import opened Actions
  import opened TapHold
  import opened TapHoldOrder
  import opened TapHoldPairs
  import opened TapHoldRelease
  import opened TapHoldTrace

  /** All keys but Y are mod-tap keys; the tapping term and the quick-tap term are 200 ms. */
  function DefaultTerms(): Config {
    Config((log, key) => if key == Y then 0x0005 else 0x2104,
           (log, t) => 200, (log, t) => 200, (log, t) => false, (log, t) => false)
  }

  const J := KeyPos(0, 0)
  const K := KeyPos(0, 1)
  const X := KeyPos(0, 2)
  const Y := KeyPos(0, 3)

  const JD := Event(J, 0, KeyEvent, true)
  const K1D := Event(K, 10, KeyEvent, true)
  const K1U := Event(K, 20, KeyEvent, false)
  const YD := Event(Y, 25, KeyEvent, true)
  const K2D := Event(K, 30, KeyEvent, true)
  const XD := Event(X, 40, KeyEvent, true)
  const K2U := Event(K, 50, KeyEvent, false)
  const TICK1 := Event(J, 210, TickEvent, false)
  const K3D := Event(K, 220, KeyEvent, true)
  const K3U := Event(K, 225, KeyEvent, false)
  const TICK2 := Event(J, 250, TickEvent, false)

  function Raw(e: Event): Record { Record(e, NO_TAP) }
  function Cut(e: Event): Record { Record(e, TapInfo(true, 0)) }
  function Tap(e: Event): Record { Record(e, TapInfo(false, 1)) }
  function CutTap(e: Event): Record { Record(e, TapInfo(true, 1)) }

  // ---------------------------------------------------------------- the calls

  /** While the first key is undecided, everything behind it waits. */
  lemma {:induction false} HeadWaits(t: Record, ring: seq<Record>)
    requires (t == Raw(JD) || t == Cut(JD)) && ring != [] && ring[0] == Raw(K1D)
    ensures Drain(DefaultTerms(), State(t, ring, [])) == State(Cut(JD), ring, [])
  {
  }

  lemma {:induction false} Waits(t: Record, ring: seq<Record>, e: Event)
    requires (t == Raw(JD) || t == Cut(JD)) && |ring| < 6 && e.key != J && !e.IsTick() && e.time < 200
    requires (e.pressed || Typed(ring, e)) && (ring + [Raw(e)])[0] == Raw(K1D)
    ensures Process(DefaultTerms(), State(t, ring, []), Raw(e)) == State(Cut(JD), ring + [Raw(e)], [])
  {
    var t' := if e.pressed then Cut(JD) else t;
    assert Admit(DefaultTerms(), State(t, ring, []), Raw(e)) == State(t', ring + [Raw(e)], []);
    HeadWaits(t', ring + [Raw(e)]);
  }

  const WAITING := [Raw(K1D), Raw(K1U), Raw(YD), Raw(K2D), Raw(XD), Raw(K2U)]
  const LOG1 := [Handed(Cut(JD))]
  const LOG2 := [Handed(Cut(JD)), Handed(Tap(K1D)), Handed(Tap(K1U))]
  const LOG3 := [Handed(Cut(JD)), Handed(Tap(K1D)), Handed(Tap(K1U)), Handed(Raw(YD))]
  const LOG4 := [Handed(Cut(JD)), Handed(Tap(K1D)), Handed(Tap(K1U)), Handed(Raw(YD)), Handed(CutTap(K2D))]
  const LOG6 := LOG4 + [Handed(Raw(XD)), Handed(Raw(K2U))]
  const LOG8 := LOG6 + [Handed(Tap(K3D)), Handed(Tap(K3U))]

  /** The first key becomes a hold; the first tap is found by looking ahead. */
  lemma {:induction false} FirstTap()
    ensures Drain(DefaultTerms(), State(NO_RECORD, WAITING, LOG1))
            == Drain(DefaultTerms(), State(Tap(K1U), WAITING[2..], LOG2))
  {
    var cfg := DefaultTerms();
    var s1 := State(NO_RECORD, WAITING, LOG1);
    var log2 := LOG1 + [Handed(Tap(K1D))];
    assert IsTapCandidate(cfg, State(Raw(K1D), WAITING, LOG1), WAITING[1]);
    assert FirstCandidate(cfg, State(Raw(K1D), WAITING, LOG1), 0) == 1;
    var s2 := State(Tap(K1D), [Tap(K1U)] + WAITING[2..], log2);
    assert Advance(Step(cfg, s1, Raw(K1D))) == s2;
    assert Advance(Step(cfg, s2, Tap(K1U))) == State(Tap(K1U), WAITING[2..], LOG2);
  }

  /** The plain key interrupts, and the second tap is taken up again without looking ahead. */
  lemma {:induction false} TakenUpAgain()
    ensures Drain(DefaultTerms(), State(Tap(K1U), WAITING[2..], LOG2)) == State(Cut(K2D), [Raw(XD), Raw(K2U)], LOG3)
  {
    var cfg := DefaultTerms();
    var s2 := State(Tap(K1U), WAITING[2..], LOG2);
    var s3 := State(CutTap(K1U), WAITING[3..], LOG3);
    var s4 := State(Raw(K2D), [Raw(XD), Raw(K2U)], LOG3);
    assert !IsTapAction(0x0005) && WAITING[2..][1..] == WAITING[3..];
    assert Advance(Step(cfg, s2, Raw(YD))) == s3;
    assert WAITING[3..][1..] == [Raw(XD), Raw(K2U)];
    assert Advance(Step(cfg, s3, Raw(K2D))) == s4;
    assert Step(cfg, s4, Raw(XD)) == StepResult(State(Cut(K2D), [Raw(XD), Raw(K2U)], LOG3), Raw(XD), false);
    assert Drain(cfg, s2) == Drain(cfg, s3) == Drain(cfg, s4);
  }

  lemma {:induction false} Tick1()
    ensures Process(DefaultTerms(), State(Cut(JD), WAITING, []), Raw(TICK1))
            == State(Cut(K2D), [Raw(XD), Raw(K2U)], LOG3)
  {
    assert Admit(DefaultTerms(), State(Cut(JD), WAITING, []), Raw(TICK1)) == State(NO_RECORD, WAITING, LOG1);
    FirstTap();
    TakenUpAgain();
  }

  lemma {:induction false} ThirdPress()
    ensures Process(DefaultTerms(), State(Cut(K2D), [Raw(XD), Raw(K2U)], LOG3), Raw(K3D))
            == State(Cut(K2D), [Raw(XD), Raw(K2U), Raw(K3D)], LOG3)
  {
    var ring := [Raw(XD), Raw(K2U), Raw(K3D)];
    assert Admit(DefaultTerms(), State(Cut(K2D), [Raw(XD), Raw(K2U)], LOG3), Raw(K3D)) == State(Cut(K2D), ring, LOG3);
    assert Step(DefaultTerms(), State(Cut(K2D), ring, LOG3), Raw(XD))
           == StepResult(State(Cut(K2D), ring, LOG3), Raw(XD), false);
  }

  /** The third release makes the second press a tap, and another tap key takes over. */
  lemma {:induction false} ThirdRelease()
    ensures Process(DefaultTerms(), State(Cut(K2D), [Raw(XD), Raw(K2U), Raw(K3D)], LOG3), Raw(K3U))
            == State(Raw(XD), [Raw(K2U), Raw(K3D), CutTap(K3U)], LOG4)
  {
    var cfg := DefaultTerms();
    var ring := [Raw(XD), Raw(K2U), Raw(K3D), CutTap(K3U)];
    var s1 := State(CutTap(K2D), ring, LOG4);
    assert ring[..3] == [Raw(XD), Raw(K2U), Raw(K3D)];
    assert Admit(cfg, State(Cut(K2D), ring[..3], LOG3), Raw(K3U)) == s1;
    assert FirstCandidate(cfg, State(Raw(XD), ring, LOG4), 0) == 4;
    var s2 := State(Raw(XD), ring[1..], LOG4);
    assert Advance(Step(cfg, s1, Raw(XD))) == s2;
    assert Typed(ring[1..], K2U) by {
      assert ring[1..][1] == Raw(K3D);
    }
    assert Step(cfg, s2, Raw(K2U)) == StepResult(s2, Raw(K2U), false);
    assert s2.ring == [Raw(K2U), Raw(K3D), CutTap(K3U)] && s2.ring[0 := Raw(K2U)] == s2.ring;
    assert Drain(cfg, s1) == Drain(cfg, s2) == Advance(StepResult(s2, Raw(K2U), false));
  }

  /** The second press's own release is processed as that of a hold. */
  lemma {:induction false} Tick2()
    ensures Process(DefaultTerms(), State(Raw(XD), [Raw(K2U), Raw(K3D), CutTap(K3U)], LOG4), Raw(TICK2))
            == State(Tap(K3U), [], LOG8)
  {
    var cfg := DefaultTerms();
    var ring := [Raw(K2U), Raw(K3D), CutTap(K3U)];
    var s1 := State(NO_RECORD, ring, LOG4 + [Handed(Raw(XD))]);
    assert Admit(cfg, State(Raw(XD), ring, LOG4), Raw(TICK2)) == s1;
    var s2 := State(NO_RECORD, [Raw(K3D), CutTap(K3U)], LOG6);
    assert Advance(Step(cfg, s1, Raw(K2U))) == s2;
    LastTap(s2);
  }

  lemma {:induction false} LastTap(s2: State)
    requires s2 == State(NO_RECORD, [Raw(K3D), CutTap(K3U)], LOG6)
    ensures Drain(DefaultTerms(), s2) == State(Tap(K3U), [], LOG8)
  {
    var cfg := DefaultTerms();
    assert IsTapCandidate(cfg, State(Raw(K3D), s2.ring, LOG6), s2.ring[1]);
    assert FirstCandidate(cfg, State(Raw(K3D), s2.ring, LOG6), 0) == 1;
    var s3 := State(Tap(K3D), [CutTap(K3U)], LOG6 + [Handed(Tap(K3D))]);
    assert Advance(Step(cfg, s2, Raw(K3D))) == s3;
    var s4 := State(Tap(K3U), [], LOG8);
    assert Advance(Step(cfg, s3, CutTap(K3U))) == s4;
    assert Drain(cfg, s2) == Drain(cfg, s3) == Drain(cfg, s4);
  }

  // ---------------------------------------------------------------- the run

  const EVENTS := [JD, K1D, K1U, YD, K2D, XD, K2U, TICK1, K3D, K3U, TICK2]

  /** The states between the events. */
  const STATES := [
    INITIAL,
    State(Raw(JD), [], []),
    State(Cut(JD), [Raw(K1D)], []),
    State(Cut(JD), [Raw(K1D), Raw(K1U)], []),
    State(Cut(JD), [Raw(K1D), Raw(K1U), Raw(YD)], []),
    State(Cut(JD), [Raw(K1D), Raw(K1U), Raw(YD), Raw(K2D)], []),
    State(Cut(JD), [Raw(K1D), Raw(K1U), Raw(YD), Raw(K2D), Raw(XD)], []),
    State(Cut(JD), WAITING, []),
    State(Cut(K2D), [Raw(XD), Raw(K2U)], LOG3),
    State(Cut(K2D), [Raw(XD), Raw(K2U), Raw(K3D)], LOG3),
    State(Raw(XD), [Raw(K2U), Raw(K3D), CutTap(K3U)], LOG4),
    State(Tap(K3U), [], LOG8)]

  lemma {:induction false} FirstWaits()
    ensures forall i :: 1 <= i < 4 ==> Process(DefaultTerms(), STATES[i], Raw(EVENTS[i])) == STATES[i + 1]
  {
    Waits(Raw(JD), [], K1D);
    assert [] + [Raw(K1D)] == STATES[2].ring;
    Waits(Cut(JD), STATES[2].ring, K1U);
    assert STATES[2].ring + [Raw(K1U)] == STATES[3].ring;
    Waits(Cut(JD), STATES[3].ring, YD);
    assert STATES[3].ring + [Raw(YD)] == STATES[4].ring;
  }

  lemma {:induction false} LaterWaits()
    ensures forall i :: 4 <= i < 7 ==> Process(DefaultTerms(), STATES[i], Raw(EVENTS[i])) == STATES[i + 1]
  {
    Waits(Cut(JD), STATES[4].ring, K2D);
    assert STATES[4].ring + [Raw(K2D)] == STATES[5].ring;
    Waits(Cut(JD), STATES[5].ring, XD);
    assert STATES[5].ring + [Raw(XD)] == STATES[6].ring;
    Waits(Cut(JD), STATES[6].ring, K2U);
    assert STATES[6].ring + [Raw(K2U)] == STATES[7].ring;
  }

  lemma {:induction false} AllCalls(events: seq<Event>, states: seq<State>)
    requires events == EVENTS && states == STATES
    ensures Traces(DefaultTerms(), events, states)
  {
    FirstWaits();
    LaterWaits();
    Tick1();
    ThirdPress();
    ThirdRelease();
    Tick2();
    assert Process(DefaultTerms(), INITIAL, Raw(JD)) == STATES[1];
  }

  lemma {:induction false} AllInTurn(events: seq<Event>, states: seq<State>)
    requires events == EVENTS && states == STATES
    ensures forall i :: 0 <= i < |events| ==> ArrivesInTurn(DefaultTerms(), states[i], events[i])
  {
  }

  const EARLY := [JD, K1D, K1U, YD, K2D, XD, K2U]

  lemma {:induction false} EarlyInTime(i: nat)
    requires i < 8
    ensures InTime(Pending(STATES[i]) + IfEvent(EVENTS[i]))
  {
    RisingInTime(EARLY);
    InTimePrefix(EARLY, if i < 7 then i + 1 else 7);
    assert Pending(STATES[i]) + IfEvent(EVENTS[i]) == EARLY[..if i < 7 then i + 1 else 7];
  }

  lemma {:induction false} LateInTime(i: nat)
    requires 8 <= i < 11
    ensures InTime(Pending(STATES[i]) + IfEvent(EVENTS[i]))
  {
    if i < 10 {
      var es := [K2D, XD, K2U, K3D, K3U];
      RisingInTime(es);
      InTimePrefix(es, i - 4);
      assert Pending(STATES[i]) + IfEvent(EVENTS[i]) == es[..i - 4];
    } else {
      RisingInTime([XD, K2U, K3D, K3U]);
      assert Pending(STATES[i]) + IfEvent(EVENTS[i]) == [XD, K2U, K3D, K3U];
    }
  }

  lemma {:induction false} AllInTime(events: seq<Event>, states: seq<State>)
    requires events == EVENTS && states == STATES
    ensures forall i :: 0 <= i < |events| ==> InTime(Pending(states[i]) + IfEvent(events[i]))
  {
    forall i | 0 <= i < |events|
      ensures InTime(Pending(states[i]) + IfEvent(events[i]))
    {
      if i < 8 {
        EarlyInTime(i);
      } else {
        LateInTime(i);
      }
    }
  }

  lemma {:induction false} AllAlternate(es: seq<Event>)
    requires es == EVENTS
    ensures forall i :: 0 <= i < |es| ==> es[i].IsTick() || AlternatesAt(es, i)
  {
    assert Apart(es, J, 0, 0) && Apart(es, K, 0, 1) && Apart(es, Y, 0, 3) && Apart(es, X, 0, 5);
    assert AlternatesAt(es, 2) by {
      assert es[1].key == es[2].key && Apart(es, K, 1 + 1, 2);
    }
    assert AlternatesAt(es, 4) by {
      assert es[2].key == es[4].key && Apart(es, K, 2 + 1, 4);
    }
    assert AlternatesAt(es, 6) by {
      assert es[4].key == es[6].key && Apart(es, K, 4 + 1, 6);
    }
    assert AlternatesAt(es, 8) by {
      assert es[6].key == es[8].key && Apart(es, K, 6 + 1, 8);
    }
    assert AlternatesAt(es, 9) by {
      assert es[8].key == es[9].key && Apart(es, K, 8 + 1, 9);
    }
  }

  lemma {:induction false} StaysUnpaired(log: seq<Out>, o: Out)
    requires !Paired(log) || !FittingOut(DownIn(log), o)
    ensures !Paired(log + [o])
  {
    assert (log + [o])[..|log|] == log;
  }

  lemma {:induction false} DownGrows(log: seq<Out>, r: Record)
    ensures DownIn(log + [Handed(r)]) == AfterRecord(DownIn(log), r)
  {
    assert (log + [Handed(r)])[..|log|] == log;
  }

  lemma {:induction false} NotPaired()
    ensures !Paired(LOG8)
  {
    var log5 := LOG4 + [Handed(Raw(XD))];
    DownGrows(LOG3, CutTap(K2D));
    assert LOG4 == LOG3 + [Handed(CutTap(K2D))];
    DownGrows(LOG4, Raw(XD));
    StaysUnpaired(log5, Handed(Raw(K2U)));
    assert LOG6 == log5 + [Handed(Raw(K2U))];
    StaysUnpaired(LOG6, Handed(Tap(K3D)));
    StaysUnpaired(LOG6 + [Handed(Tap(K3D))], Handed(Tap(K3U)));
    assert LOG8 == LOG6 + [Handed(Tap(K3D))] + [Handed(Tap(K3U))];
  }

  /**
   * The condition is needed: after this alternating run, entered in turn and in time
   * throughout, nothing waits, but the second press was processed as a tap and its
   * release as that of a hold.
   */
  lemma {:induction false} TapReleasedAsHold(input: seq<Event>, s: State)
    requires input == EVENTS && s == Run(DefaultTerms(), INITIAL, input)
    ensures AlternatingInput(input) && Orderly(DefaultTerms(), input)
    ensures Punctual(DefaultTerms(), input) && TermNeverGrows(DefaultTerms())
    ensures !OwnReleases(DefaultTerms(), input) && !Sighted(DefaultTerms(), input)
    ensures Pending(s) == [] && !Paired(s.log) && Handed(CutTap(K2D)) in s.log && Handed(Raw(K2U)) in s.log
  {
    var states := STATES;
    AllCalls(input, states);
    AllInTurn(input, states);
    AllInTime(input, states);
    AllAlternate(input);
    LastState(states[|input|]);
    Conclude(input, states);
  }

  lemma {:induction false} LastState(s: State)
    requires s == State(Tap(K3U), [], LOG8)
    ensures Pending(s) == [] && !Paired(s.log) && Handed(CutTap(K2D)) in s.log && Handed(Raw(K2U)) in s.log
  {
    NotPaired();
    assert LOG8[4] == Handed(CutTap(K2D)) && LOG8[6] == Handed(Raw(K2U));
  }

  lemma {:induction false} Conclude(input: seq<Event>, states: seq<State>)
    requires Traces(DefaultTerms(), input, states) && !Paired(states[|input|].log)
    requires forall i :: 0 <= i < |input| ==> ArrivesInTurn(DefaultTerms(), states[i], input[i])
    requires forall i :: 0 <= i < |input| ==> InTime(Pending(states[i]) + IfEvent(input[i]))
    requires forall i :: 0 <= i < |input| ==> input[i].IsTick() || AlternatesAt(input, i)
    ensures Run(DefaultTerms(), INITIAL, input) == states[|input|]
    ensures AlternatingInput(input) && Orderly(DefaultTerms(), input)
    ensures Punctual(DefaultTerms(), input) && TermNeverGrows(DefaultTerms())
    ensures !OwnReleases(DefaultTerms(), input) && !Sighted(DefaultTerms(), input)
  {
    var cfg, n := DefaultTerms(), |input|;
    assert input[..n] == input;
    TraceRuns(cfg, input, states, n);
    TraceOrderly(cfg, input, states, n);
    TracePunctual(cfg, input, states, n);
    TraceAlternates(input, n);
    MatchesExactly(cfg, input);
    if Sighted(cfg, input) {
      ReleasedAsPressed(cfg, input);
    }
  }
}
