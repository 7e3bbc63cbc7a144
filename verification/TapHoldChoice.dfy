/**
 * What makes an undecided key a hold or a tap, as seen in the log.  While other keys
 * are pressed or typed behind it within its term, it stays undecided as long as the
 * two options allow; and the event that decides it is told by their answers alone.
 */
module TapHoldChoice {
  import opened KeyEvents
  import opened Actions
  import opened TapHold
  import opened TapHoldOrder
  import opened TapHoldTaps

  function Raw(e: Event): Record { Record(e, NO_TAP) }

  function RawAll(es: seq<Event>): (rs: seq<Record>)
    ensures |rs| == |es| && forall i :: 0 <= i < |rs| ==> rs[i] == Raw(es[i])
  {
    seq(|es|, i requires 0 <= i < |es| => Raw(es[i]))
  }

  /** The key while it waits, and whether another key was pressed meanwhile. */
  function Waiting(m: Event, cut: bool): Record { Record(m, TapInfo(cut, 0)) }

  /** A press of the key is among the events, which hold no tick. */
  predicate Pressed(es: seq<Event>, key: KeyPos) {
    exists i :: 0 <= i < |es| && es[i].key == key && es[i].pressed
  }

  predicate AnyPress(es: seq<Event>) { exists i :: 0 <= i < |es| && es[i].pressed }

  /** The event comes within the term of the waiting key, whether another was pressed or not. */
  predicate InTerm(cfg: Config, log: seq<Out>, m: Event, e: Event) {
    TimerDiff16(e.time, m.time) < cfg.term(log, Waiting(m, false))
    && TimerDiff16(e.time, m.time) < cfg.term(log, Waiting(m, true))
  }

  /**
   * An event that leaves the key `m` waiting, behind which `es` arrived: a tick, a
   * press that does not decide, or a release of a key pressed since that does not.
   */
  predicate LeavesWaiting(cfg: Config, log: seq<Out>, m: Event, es: seq<Event>, e: Event) {
    && InTerm(cfg, log, m, e)
    && (e.IsTick()
        || (e.key != m.key
            && if e.pressed then !cfg.holdOnOtherKeyPress(log, Waiting(m, true))
               else Pressed(es, e.key) && !cfg.permissiveHold(log, Waiting(m, true))))
  }

  /** All events, one after another, leave the key waiting. */
  predicate AllLeaveWaiting(cfg: Config, log: seq<Out>, m: Event, input: seq<Event>) {
    input == [] ||
      var before, e := input[..|input| - 1], input[|input| - 1];
      AllLeaveWaiting(cfg, log, m, before) && LeavesWaiting(cfg, log, m, Arrivals(before), e)
  }

  /** At rest, with no records waiting, and a tap key goes down. */
  predicate Starts(cfg: Config, s: State, m: Event) {
    IsIdle(s) && s.ring == [] && !m.IsTick() && m.pressed && IsTapAction(cfg.actionOf(s.log, m.key))
  }

  function WaitState(log: seq<Out>, m: Event, es: seq<Event>): State {
    State(Waiting(m, AnyPress(es)), RawAll(es), log)
  }

  // ---------------------------------------------------------------- while it waits

  /** The first event behind the key is a press that does not decide. */
  predicate FirstWaits(cfg: Config, log: seq<Out>, m: Event, es: seq<Event>) {
    es != [] ==> es[0].pressed && es[0].key != m.key && !es[0].IsTick() && InTerm(cfg, log, m, es[0])
                 && !cfg.holdOnOtherKeyPress(log, Waiting(m, true))
  }

  lemma {:induction false} TypedIs(es: seq<Event>, e: Event)
    ensures !e.pressed ==> (Typed(RawAll(es), e) <==> Pressed(es, e.key))
  {
    if Pressed(es, e.key) {
      var i :| 0 <= i < |es| && es[i].key == e.key && es[i].pressed;
      assert RawAll(es)[i].event == es[i];
    }
  }

  lemma {:induction false} OneMoreRaw(es: seq<Event>, e: Event)
    ensures RawAll(es) + [Raw(e)] == RawAll(es + [e])
    ensures AnyPress(es + [e]) <==> AnyPress(es) || e.pressed
  {
    assert (es + [e])[|es|] == e;
    if AnyPress(es) {
      var i :| 0 <= i < |es| && es[i].pressed;
      assert (es + [e])[i].pressed;
    }
  }

  /** The oldest record behind the key is offered again and stays. */
  lemma {:induction false} HeadStays(cfg: Config, log: seq<Out>, m: Event, es: seq<Event>)
    requires m.pressed && !m.IsTick() && FirstWaits(cfg, log, m, es)
    ensures Drain(cfg, WaitState(log, m, es)) == WaitState(log, m, es)
  {
    if es != [] {
      var s := WaitState(log, m, es);
      assert es[0].pressed;
      assert Step(cfg, s, s.ring[0]) == StepResult(s, s.ring[0], false);
    }
  }

  lemma {:induction false} Waits(cfg: Config, log: seq<Out>, m: Event, es: seq<Event>, e: Event)
    requires m.pressed && !m.IsTick() && FirstWaits(cfg, log, m, es) && LeavesWaiting(cfg, log, m, es, e)
    requires |es + IfEvent(e)| < WAITING_BUFFER_SIZE
    ensures Process(cfg, WaitState(log, m, es), Raw(e)) == WaitState(log, m, es + IfEvent(e))
    ensures FirstWaits(cfg, log, m, es + IfEvent(e))
  {
    var s := WaitState(log, m, es);
    if e.IsTick() {
      assert es + [] == es;
      HeadStays(cfg, log, m, es);
    } else {
      TypedIs(es, e);
      OneMoreRaw(es, e);
      if Pressed(es, e.key) {
        assert AnyPress(es);
      }
      assert Admit(cfg, s, Raw(e)) == WaitState(log, m, es + [e]);
      HeadStays(cfg, log, m, es + [e]);
    }
  }

  lemma {:induction false} Started(cfg: Config, s: State, m: Event)
    requires Starts(cfg, s, m)
    ensures Process(cfg, s, Raw(m)) == WaitState(s.log, m, [])
  {
    FirstPress(cfg, s, m);
  }

  lemma {:induction false} RunAndOne(cfg: Config, s: State, input: seq<Event>, e: Event)
    ensures Run(cfg, s, input + [e]) == Process(cfg, Run(cfg, s, input), Raw(e))
  {
    assert (input + [e])[..|input|] == input;
  }

  lemma {:induction false} NextWaits(
      cfg: Config, s: State, m: Event, events: seq<Event>, es: seq<Event>, e: Event, events': seq<Event>)
    requires m.pressed && !m.IsTick() && Run(cfg, s, events) == WaitState(s.log, m, es) && events' == events + [e]
    requires FirstWaits(cfg, s.log, m, es) && LeavesWaiting(cfg, s.log, m, es, e)
    requires |es + IfEvent(e)| < WAITING_BUFFER_SIZE
    ensures Run(cfg, s, events') == WaitState(s.log, m, es + IfEvent(e))
    ensures FirstWaits(cfg, s.log, m, es + IfEvent(e))
  {
    RunAndOne(cfg, s, events, e);
    Waits(cfg, s.log, m, es, e);
  }

  lemma {:induction false} WaitsFirst(cfg: Config, s: State, m: Event)
    requires Starts(cfg, s, m)
    ensures Run(cfg, s, [m]) == WaitState(s.log, m, [])
  {
    RunOne(cfg, s, m);
    Started(cfg, s, m);
  }

  /** Until something decides, nothing is handed on. */
  lemma {:induction false} StaysWaiting(cfg: Config, s: State, m: Event, input: seq<Event>, events: seq<Event>)
    requires Starts(cfg, s, m) && AllLeaveWaiting(cfg, s.log, m, input) && events == [m] + input
    requires |Arrivals(input)| < WAITING_BUFFER_SIZE
    ensures Run(cfg, s, events) == WaitState(s.log, m, Arrivals(input))
    ensures FirstWaits(cfg, s.log, m, Arrivals(input))
  {
    if input == [] {
      WaitsFirst(cfg, s, m);
      assert events == [m];
    } else {
      var before, e := input[..|input| - 1], input[|input| - 1];
      var front := events[..|input|];
      assert front == [m] + before && events == front + [e];
      StaysWaiting(cfg, s, m, before, front);
      NextWaits(cfg, s, m, front, Arrivals(before), e, events);
    }
  }

  // ---------------------------------------------------------------- what decides

  /** One call, from a state in which the key waits. */
  lemma {:induction false} CallDecides(cfg: Config, log: seq<Out>, m: Event, es: seq<Event>, e: Event)
    requires m.pressed && !m.IsTick() && FirstWaits(cfg, log, m, es) && |es| < WAITING_BUFFER_SIZE - 1
    ensures var s, cut := WaitState(log, m, es), AnyPress(es);
      && (TimerDiff16(e.time, m.time) >= cfg.term(log, Waiting(m, cut)) ==>
            log + [Handed(Waiting(m, cut))] <= Step(cfg, s, Raw(e)).state.log)
      && (InTerm(cfg, log, m, e) && !e.IsTick() && e.key == m.key && !e.pressed ==>
            log + [Handed(Record(m, TapInfo(cut, 1)))] <= Step(cfg, s, Raw(e)).state.log)
  {
  }

  /** Another key's press in term decides exactly if the option says so. */
  lemma {:induction false} PressDecides(cfg: Config, log: seq<Out>, m: Event, es: seq<Event>, e: Event)
    requires m.pressed && !m.IsTick() && FirstWaits(cfg, log, m, es) && |es| < WAITING_BUFFER_SIZE - 1
    requires InTerm(cfg, log, m, e) && !e.IsTick() && e.key != m.key && e.pressed
    ensures var log' := Process(cfg, WaitState(log, m, es), Raw(e)).log;
      if cfg.holdOnOtherKeyPress(log, Waiting(m, true)) then log + [Handed(Waiting(m, true))] <= log' else log' == log
  {
    if cfg.holdOnOtherKeyPress(log, Waiting(m, true)) {
      ProcessLogGrows(cfg, WaitState(log, m, es), Raw(e));
    } else {
      Waits(cfg, log, m, es, e);
    }
  }

  /** The release of a key pressed since decides exactly if the other option says so. */
  lemma {:induction false} TypingDecides(cfg: Config, log: seq<Out>, m: Event, es: seq<Event>, e: Event)
    requires m.pressed && !m.IsTick() && FirstWaits(cfg, log, m, es) && |es| < WAITING_BUFFER_SIZE - 1
    requires InTerm(cfg, log, m, e) && !e.IsTick() && e.key != m.key && !e.pressed && Pressed(es, e.key)
    ensures var log' := Process(cfg, WaitState(log, m, es), Raw(e)).log;
      if cfg.permissiveHold(log, Waiting(m, true)) then log + [Handed(Waiting(m, true))] <= log' else log' == log
  {
    assert AnyPress(es);
    if cfg.permissiveHold(log, Waiting(m, true)) {
      TypedIs(es, e);
      ProcessLogGrows(cfg, WaitState(log, m, es), Raw(e));
    } else {
      Waits(cfg, log, m, es, e);
    }
  }

  /** The release of a key that was down before goes past, unless its action holds it back. */
  lemma {:induction false} EarlierRelease(cfg: Config, log: seq<Out>, m: Event, es: seq<Event>, e: Event)
    requires m.pressed && !m.IsTick() && FirstWaits(cfg, log, m, es) && |es| < WAITING_BUFFER_SIZE - 1
    requires InTerm(cfg, log, m, e) && !e.IsTick() && e.key != m.key && !e.pressed && !Pressed(es, e.key)
    ensures var log' := Process(cfg, WaitState(log, m, es), Raw(e)).log;
      if IsRetained(cfg.actionOf(log, e.key), 0) then log' == log else log + [LetThrough(Raw(e))] <= log'
  {
    var s := WaitState(log, m, es);
    TypedIs(es, e);
    if IsRetained(cfg.actionOf(log, e.key), 0) {
      OneMoreRaw(es, e);
      assert Admit(cfg, s, Raw(e)) == WaitState(log, m, es + [e]);
      if es == [] {
        TypedIs([e], e);
        assert Step(cfg, WaitState(log, m, [e]), Raw(e)) == StepResult(WaitState(log, m, [e]), Raw(e), false);
      } else {
        HeadStays(cfg, log, m, es + [e]);
      }
    } else {
      ProcessLogGrows(cfg, s, Raw(e));
    }
  }

  /**
   * Which event makes a waiting key a hold or a tap.  The key `m` goes down at rest,
   * and what follows leaves it waiting.  Then the next event `e` decides as follows.
   * Past the term the key is handed on as a hold.  In term, its own release hands it
   * on as a tap with count 1; another key's press hands it on as a hold if and only if
   * hold-on-other-key-press says so; the release of a key pressed since, if and only
   * if permissive hold says so; and the release of a key that was down before goes
   * past it if and only if that key's action does not hold it back.  Else nothing is
   * handed on.
   */
  lemma {:induction false} Decides(cfg: Config, s: State, m: Event, input: seq<Event>, e: Event)
    requires Starts(cfg, s, m) && AllLeaveWaiting(cfg, s.log, m, input)
    requires |Arrivals(input)| < WAITING_BUFFER_SIZE - 1
    ensures var log, cut := Run(cfg, s, [m] + input + [e]).log, AnyPress(Arrivals(input));
      && (TimerDiff16(e.time, m.time) >= cfg.term(s.log, Waiting(m, cut)) ==> s.log + [Handed(Waiting(m, cut))] <= log)
      && (InTerm(cfg, s.log, m, e) ==>
            if e.IsTick() then log == s.log
            else if e.key == m.key then !e.pressed ==> s.log + [Handed(Record(m, TapInfo(cut, 1)))] <= log
            else if e.pressed then
              if cfg.holdOnOtherKeyPress(s.log, Waiting(m, true)) then s.log + [Handed(Waiting(m, true))] <= log
              else log == s.log
            else if Pressed(Arrivals(input), e.key) then
              if cfg.permissiveHold(s.log, Waiting(m, true)) then s.log + [Handed(Waiting(m, true))] <= log
              else log == s.log
            else
              if IsRetained(cfg.actionOf(s.log, e.key), 0) then log == s.log
              else s.log + [LetThrough(Raw(e))] <= log)
  {
    var es := Arrivals(input);
    StaysWaiting(cfg, s, m, input, [m] + input);
    RunAndOne(cfg, s, [m] + input, e);
    ProcessLogGrows(cfg, WaitState(s.log, m, es), Raw(e));
    CallDecides(cfg, s.log, m, es, e);
    if InTerm(cfg, s.log, m, e) {
      if e.IsTick() {
        Waits(cfg, s.log, m, es, e);
      } else if e.key != m.key {
        if e.pressed {
          PressDecides(cfg, s.log, m, es, e);
        } else if Pressed(es, e.key) {
          TypingDecides(cfg, s.log, m, es, e);
        } else {
          EarlierRelease(cfg, s.log, m, es, e);
        }
      }
    }
  }

  // ---------------------------------------------------------------- after a tap

  /** A key that was tapped `n` times and is up again, with nothing waiting. */
  function TappedUp(up: Event, cut: bool, n: nat, log: seq<Out>): State { State(Record(up, TapInfo(cut, n)), [], log) }

  /**
   * The event after a tap.  In term, the same key pressed again is one tap more, up to
   * 15, if and only if it comes within the quick-tap term and no other key came
   * between; else it waits to be decided anew.  Another tap key waits to be decided,
   * any other event is handed on at once, and a press of those interrupts.
   */
  lemma {:induction false} AfterTap(cfg: Config, up: Event, cut: bool, n: nat, log: seq<Out>, e: Event)
    requires !up.IsTick() && !up.pressed && n > 0 && !e.IsTick()
    requires TimerDiff16(e.time, up.time) < cfg.term(log, Record(up, TapInfo(cut, n)))
    ensures var s' := Process(cfg, TappedUp(up, cut, n, log), Raw(e));
      var quick := TimerDiff16(e.time, up.time) < cfg.quickTerm(log, Record(up, TapInfo(cut, n)));
      && s'.ring == []
      && if !e.pressed then
           s'.log == log + [Handed(Raw(e))] && s'.tapping == Record(up, TapInfo(cut, n))
         else if e.key == up.key then
           if quick && !cut then
             var press := Record(e, TapInfo(false, if n < 15 then n + 1 else n));
             s'.log == log + [Handed(press)] && s'.tapping == press
           else s'.log == log && s'.tapping == Raw(e)
         else if IsTapAction(cfg.actionOf(log, e.key)) then s'.log == log && s'.tapping == Raw(e)
         else s'.log == log + [Handed(Raw(e))] && s'.tapping == Record(up, TapInfo(true, n))
  {
  }

  /** Past the term the tap is forgotten, and the event finds the key at rest. */
  lemma {:induction false} AfterLateTap(cfg: Config, up: Event, cut: bool, n: nat, log: seq<Out>, e: Event)
    requires !up.IsTick() && !up.pressed && n > 0
    requires TimerDiff16(e.time, up.time) >= cfg.term(log, Record(up, TapInfo(cut, n)))
    ensures Process(cfg, TappedUp(up, cut, n, log), Raw(e)) == Process(cfg, State(NO_RECORD, [], log), Raw(e))
  {
    var s0 := State(NO_RECORD, [], log);
    if !e.IsTick() {
      assert Admit(cfg, TappedUp(up, cut, n, log), Raw(e)) == State(NO_RECORD, [Raw(e)], log);
      if e.pressed && IsTapAction(cfg.actionOf(log, e.key)) {
        NoOwnRelease(cfg, State(Raw(e), [Raw(e)], log));
        assert Drain(cfg, State(NO_RECORD, [Raw(e)], log)) == Drain(cfg, State(Raw(e), [], log));
      } else {
        assert Drain(cfg, State(NO_RECORD, [Raw(e)], log)) == Drain(cfg, State(NO_RECORD, [], log + [Handed(Raw(e))]));
      }
    }
  }

  lemma {:induction false} NoOwnRelease(cfg: Config, s: State)
    requires |s.ring| == 1 && s.ring[0].event.pressed
    ensures FirstCandidate(cfg, s, 0) == 1
  {
  }

  /** A key that was tapped `n` times and is down, with nothing waiting. */
  function TappedDown(down: Event, cut: bool, n: nat, log: seq<Out>): State {
    State(Record(down, TapInfo(cut, n)), [], log)
  }

  /**
   * The event while a tap is down.  Its own release is handed on with the same count,
   * and remembered for further taps only in term.  Another tap key waits to be
   * decided, after a made-up release if and only if the count is above one.  Any
   * other event is handed on at once.
   */
  lemma {:induction false} DuringTap(cfg: Config, down: Event, cut: bool, n: nat, log: seq<Out>, e: Event)
    requires !down.IsTick() && down.pressed && n > 0
    ensures var s' := Process(cfg, TappedDown(down, cut, n, log), Raw(e));
      var inTerm := TimerDiff16(e.time, down.time) < cfg.term(log, Record(down, TapInfo(cut, n)));
      && s'.ring == []
      && if e.IsTick() then s' == TappedDown(down, cut, n, log)
         else if e.key == down.key && !e.pressed then
           var release := Record(e, TapInfo(cut, n));
           s'.log == log + [Handed(release)] && s'.tapping == if inTerm then release else NO_RECORD
         else if e.pressed && IsTapAction(cfg.actionOf(log, e.key)) then
           var release := Record(Event(down.key, e.time, down.kind, false), TapInfo(cut, n));
           s'.log == log + (if n > 1 then [Synthetic(release)] else []) && s'.tapping == Raw(e)
         else s'.log == log + [Handed(Raw(e))] && s'.tapping == Record(down, TapInfo(cut, n))
  {
  }

  /** At rest, an event that starts no decision is handed on at once. */
  lemma {:induction false} AtRest(cfg: Config, log: seq<Out>, e: Event)
    ensures Process(cfg, State(NO_RECORD, [], log), Raw(e)) ==
      if e.IsTick() then State(NO_RECORD, [], log)
      else if e.pressed && IsTapAction(cfg.actionOf(log, e.key)) then State(Raw(e), [], log)
      else State(NO_RECORD, [], log + [Handed(Raw(e))])
  {
  }

  // ---------------------------------------------------------------- taps found by looking ahead

  /** A release of the key waits that comes within its term. */
  predicate OwnTap(cfg: Config, log: seq<Out>, m: Record, ring: seq<Record>, i: nat)
    requires i < |ring|
  {
    var e := ring[i].event;
    !e.IsTick() && e.key == m.event.key && !e.pressed && TimerDiff16(e.time, m.event.time) < cfg.term(log, m)
  }

  /**
   * A tap key taken up at rest, with records waiting, is handed on at once as a tap
   * with count 1 if and only if a release of it waits within its term; then the first
   * such release is tagged with that count, and nothing else changes.
   */
  lemma {:induction false} LooksAhead(cfg: Config, ring: seq<Record>, log: seq<Out>, m: Record)
    requires !m.event.IsTick() && m.event.pressed && m.tap == NO_TAP && IsTapAction(cfg.actionOf(log, m.event.key))
    ensures var res := Step(cfg, State(NO_RECORD, ring, log), m); var tap := Record(m.event, TapInfo(false, 1));
      && res.consumed && |res.state.ring| == |ring|
      && (if exists i :: 0 <= i < |ring| && OwnTap(cfg, log, m, ring, i)
          then res.state.log == log + [Handed(tap)] && res.state.tapping == tap
          else res.state == State(m, ring, log))
      && forall i :: 0 <= i < |ring| ==>
           res.state.ring[i] ==
             if OwnTap(cfg, log, m, ring, i) && forall j :: 0 <= j < i ==> !OwnTap(cfg, log, m, ring, j)
             then ring[i].(tap := ring[i].tap.(count := 1)) else ring[i]
  {
    var s := State(m, ring, log);
    var k := FirstCandidate(cfg, s, 0);
    assert forall i :: 0 <= i < |ring| ==> (OwnTap(cfg, log, m, ring, i) <==> IsTapCandidate(cfg, s, ring[i]));
  }
}
