/**
 * Tap counting: a sequence of quick taps of one key is delivered as presses and
 * releases that carry 1, 2, 3, ... up to 15.
 */
module TapHoldTaps {
  import opened KeyEvents
  import opened Actions
  import opened TapHold

  /** One tap: when the key goes down and up, and the ticks during and after it. */
  datatype Tap = Tap(press: Time16, during: seq<Time16>, release: Time16, after: seq<Time16>)

  function KeyAt(key: KeyPos, time: Time16, pressed: bool): Event {
    Event(key, time, KeyEvent, pressed)
  }

  function TickAt(time: Time16): Event { Event(KeyPos(0, 0), time, TickEvent, false) }

  function Ticks(times: seq<Time16>): (es: seq<Event>)
    ensures |es| == |times|
  {
    seq(|times|, i requires 0 <= i < |times| => TickAt(times[i]))
  }

  function TapInput(key: KeyPos, t: Tap): seq<Event> {
    [KeyAt(key, t.press, true)] + Ticks(t.during) + [KeyAt(key, t.release, false)] + Ticks(t.after)
  }

  function TapsInput(key: KeyPos, taps: seq<Tap>): seq<Event> {
    if taps == [] then [] else TapsInput(key, taps[..|taps| - 1]) + TapInput(key, taps[|taps| - 1])
  }

  /** Everything happens within `term` of the event before it. */
  predicate IsQuick(t: Tap, term: Time16) {
    && TimerDiff16(t.release, t.press) < term
    && (forall i :: 0 <= i < |t.during| ==> TimerDiff16(t.during[i], t.press) < term)
    && (forall i :: 0 <= i < |t.after| ==> TimerDiff16(t.after[i], t.release) < term)
  }

  /** Quick taps, each pressed again within the quick-tap term of the last release. */
  predicate QuickTaps(taps: seq<Tap>, term: Time16, quick: Time16) {
    && (forall i :: 0 <= i < |taps| ==> IsQuick(taps[i], term))
    && (forall i :: 0 < i < |taps| ==>
          TimerDiff16(taps[i].press, taps[i - 1].release) < quick
          && TimerDiff16(taps[i].press, taps[i - 1].release) < term)
  }

  /** For this key the terms are never shorter than the given ones. */
  ghost predicate TermsAtLeast(cfg: Config, key: KeyPos, term: Time16, quick: Time16) {
    forall log: seq<Out>, t: Record :: t.event.key == key ==>
      term <= cfg.term(log, t) && quick <= cfg.quickTerm(log, t)
  }

  function CountAfter(n: nat): nat { if n < 15 then n else 15 }

  function Tagged(e: Event, n: nat): Record { Record(e, TapInfo(false, CountAfter(n))) }

  /** What quick taps should deliver: the n-th press and release both carry min(n, 15). */
  function TapsOutput(key: KeyPos, taps: seq<Tap>): seq<Out> {
    if taps == [] then []
    else
      var n, t := |taps|, taps[|taps| - 1];
      TapsOutput(key, taps[..n - 1])
      + [Handed(Tagged(KeyAt(key, t.press, true), n)), Handed(Tagged(KeyAt(key, t.release, false), n))]
  }

  // ---------------------------------------------------------------- steps

  lemma {:induction false} RunConcat(cfg: Config, s: State, a: seq<Event>, b: seq<Event>)
    ensures Run(cfg, s, a + b) == Run(cfg, Run(cfg, s, a), b)
  {
    if b == [] {
      assert a + b == a;
    } else {
      assert (a + b)[..|a + b| - 1] == a + b[..|b| - 1];
      RunConcat(cfg, s, a, b[..|b| - 1]);
    }
  }

  lemma {:induction false} RunOne(cfg: Config, s: State, e: Event)
    ensures Run(cfg, s, [e]) == Process(cfg, s, Record(e, NO_TAP))
  {
    assert [e][..0] == [];
    assert Run(cfg, s, [e][..0]) == s;
  }

  /** Ticks within the term change nothing when no record is postponed. */
  lemma {:induction false} TicksChangeNothing(cfg: Config, s: State, times: seq<Time16>)
    requires s.ring == [] && !IsIdle(s)
    requires forall i :: 0 <= i < |times| ==> WithinTappingTerm(cfg, s, TickAt(times[i]))
    ensures Run(cfg, s, Ticks(times)) == s
  {
    if times != [] {
      var n := |times| - 1;
      TicksChangeNothing(cfg, s, times[..n]);
      assert Ticks(times)[..n] == Ticks(times[..n]);
    }
  }

  lemma {:induction false} FirstPress(cfg: Config, s: State, e: Event)
    requires IsIdle(s) && s.ring == [] && !e.IsTick() && e.pressed
    requires IsTapAction(cfg.actionOf(s.log, e.key))
    ensures Process(cfg, s, Record(e, NO_TAP)) == s.(tapping := Record(e, NO_TAP))
  {
  }

  lemma {:induction false} FirstRelease(cfg: Config, s: State, e: Event, term: Time16, quick: Time16)
    requires IsUndecided(s) && s.ring == [] && s.tapping.tap == NO_TAP
    requires !e.IsTick() && !e.pressed && e.key == s.tapping.event.key
    requires TermsAtLeast(cfg, e.key, term, quick) && TimerDiff16(e.time, s.tapping.event.time) < term
    ensures var press, release := Tagged(s.tapping.event, 1), Tagged(e, 1);
      Process(cfg, s, Record(e, NO_TAP)) == State(release, [], s.log + [Handed(press), Handed(release)])
  {
    var press, release := Tagged(s.tapping.event, 1), Tagged(e, 1);
    var s1 := State(press, [release], s.log + [Handed(press)]);
    assert Admit(cfg, s, Record(e, NO_TAP)) == s1;
    var res := Step(cfg, s1, release);
    assert res == StepResult(State(release, [release], s1.log + [Handed(release)]), release, true);
    assert s1.log + [Handed(release)] == s.log + [Handed(press), Handed(release)];
    assert Drain(cfg, s1) == Drain(cfg, Advance(res));
  }

  lemma {:induction false} NextPress(cfg: Config, s: State, e: Event, n: nat)
    requires s.ring == [] && !IsIdle(s) && !s.tapping.event.pressed && s.tapping.tap == TapInfo(false, CountAfter(n))
    requires n > 0 && !e.IsTick() && e.pressed && e.key == s.tapping.event.key
    requires WithinTappingTerm(cfg, s, e) && WithinQuickTapTerm(cfg, s, e)
    ensures var press := Tagged(e, n + 1);
      Process(cfg, s, Record(e, NO_TAP)) == State(press, [], s.log + [Handed(press)])
  {
  }

  lemma {:induction false} NextRelease(cfg: Config, s: State, e: Event, n: nat)
    requires s.ring == [] && !IsIdle(s) && s.tapping.event.pressed && s.tapping.tap == TapInfo(false, CountAfter(n))
    requires n > 0 && !e.IsTick() && !e.pressed && e.key == s.tapping.event.key && WithinTappingTerm(cfg, s, e)
    ensures var release := Tagged(e, n);
      Process(cfg, s, Record(e, NO_TAP)) == State(release, [], s.log + [Handed(release)])
  {
  }

  /** The key is at rest before its first tap, or was just tapped n times. */
  predicate ReadyFor(cfg: Config, s: State, key: KeyPos, t: Tap, n: nat, term: Time16, quick: Time16) {
    && s.ring == []
    && if n == 0 then IsIdle(s) && IsTapAction(cfg.actionOf(s.log, key))
       else
         && !IsIdle(s) && !s.tapping.event.pressed && s.tapping.event.key == key
         && s.tapping.tap == TapInfo(false, CountAfter(n))
         && TimerDiff16(t.press, s.tapping.event.time) < quick
         && TimerDiff16(t.press, s.tapping.event.time) < term
  }

  /** Going down, with the ticks that follow. */
  lemma {:induction false} TapDown(cfg: Config, s: State, key: KeyPos, t: Tap, n: nat, term: Time16, quick: Time16)
    requires TermsAtLeast(cfg, key, term, quick) && IsQuick(t, term) && ReadyFor(cfg, s, key, t, n, term, quick)
    ensures var e := KeyAt(key, t.press, true);
      Run(cfg, s, [e] + Ticks(t.during))
      == if n == 0 then s.(tapping := Record(e, NO_TAP))
         else State(Tagged(e, n + 1), [], s.log + [Handed(Tagged(e, n + 1))])
  {
    var e := KeyAt(key, t.press, true);
    RunConcat(cfg, s, [e], Ticks(t.during));
    RunOne(cfg, s, e);
    if n == 0 {
      FirstPress(cfg, s, e);
    } else {
      NextPress(cfg, s, e, n);
    }
    TicksChangeNothing(cfg, Process(cfg, s, Record(e, NO_TAP)), t.during);
  }

  /** Going up, with the ticks that follow. */
  lemma {:induction false} TapUp(
      cfg: Config, s: State, key: KeyPos, t: Tap, n: nat, log: seq<Out>, term: Time16, quick: Time16)
    requires TermsAtLeast(cfg, key, term, quick) && IsQuick(t, term)
    requires var e := KeyAt(key, t.press, true);
      s == if n == 0 then State(Record(e, NO_TAP), [], log)
           else State(Tagged(e, n + 1), [], log + [Handed(Tagged(e, n + 1))])
    ensures var press, release := Tagged(KeyAt(key, t.press, true), n + 1), Tagged(KeyAt(key, t.release, false), n + 1);
      Run(cfg, s, [KeyAt(key, t.release, false)] + Ticks(t.after))
      == State(release, [], log + [Handed(press), Handed(release)])
  {
    var e := KeyAt(key, t.release, false);
    var press, release := Tagged(KeyAt(key, t.press, true), n + 1), Tagged(e, n + 1);
    RunConcat(cfg, s, [e], Ticks(t.after));
    RunOne(cfg, s, e);
    if n == 0 {
      FirstRelease(cfg, s, e, term, quick);
    } else {
      NextRelease(cfg, s, e, n + 1);
      assert log + [Handed(press)] + [Handed(release)] == log + [Handed(press), Handed(release)];
    }
    TicksChangeNothing(cfg, Process(cfg, s, Record(e, NO_TAP)), t.after);
  }

  lemma {:induction false} OneTap(cfg: Config, s: State, key: KeyPos, t: Tap, n: nat, term: Time16, quick: Time16)
    requires TermsAtLeast(cfg, key, term, quick) && IsQuick(t, term) && ReadyFor(cfg, s, key, t, n, term, quick)
    ensures var press, release := Tagged(KeyAt(key, t.press, true), n + 1), Tagged(KeyAt(key, t.release, false), n + 1);
      Run(cfg, s, TapInput(key, t)) == State(release, [], s.log + [Handed(press), Handed(release)])
  {
    var down := [KeyAt(key, t.press, true)] + Ticks(t.during);
    var up := [KeyAt(key, t.release, false)] + Ticks(t.after);
    assert TapInput(key, t) == down + up;
    RunConcat(cfg, s, down, up);
    TapDown(cfg, s, key, t, n, term, quick);
    TapUp(cfg, Run(cfg, s, down), key, t, n, s.log, term, quick);
  }

  /** The state that quick taps from rest should lead to. */
  function AfterTaps(s: State, key: KeyPos, taps: seq<Tap>): State {
    State(if taps == [] then s.tapping else Tagged(KeyAt(key, taps[|taps| - 1].release, false), |taps|),
          [], s.log + TapsOutput(key, taps))
  }

  lemma {:induction false} AnotherTap(
      cfg: Config, s: State, key: KeyPos, taps: seq<Tap>, t: Tap, term: Time16, quick: Time16)
    requires IsIdle(s) && IsTapAction(cfg.actionOf(s.log, key))
    requires TermsAtLeast(cfg, key, term, quick) && IsQuick(t, term)
    requires taps == [] || (TimerDiff16(t.press, taps[|taps| - 1].release) < quick
                            && TimerDiff16(t.press, taps[|taps| - 1].release) < term)
    ensures Run(cfg, AfterTaps(s, key, taps), TapInput(key, t)) == AfterTaps(s, key, taps + [t])
  {
    var n := |taps|;
    if n == 0 {
      assert s.log + [] == s.log;
    }
    OneTap(cfg, AfterTaps(s, key, taps), key, t, n, term, quick);
    assert (taps + [t])[..n] == taps;
    var pair := [Handed(Tagged(KeyAt(key, t.press, true), n + 1)), Handed(Tagged(KeyAt(key, t.release, false), n + 1))];
    assert s.log + TapsOutput(key, taps) + pair == s.log + TapsOutput(key, taps + [t]);
  }

  lemma {:induction false} TapsExtend(
      cfg: Config, s: State, key: KeyPos, taps: seq<Tap>, t: Tap, term: Time16, quick: Time16)
    requires IsIdle(s) && IsTapAction(cfg.actionOf(s.log, key))
    requires TermsAtLeast(cfg, key, term, quick) && IsQuick(t, term)
    requires taps == [] || (TimerDiff16(t.press, taps[|taps| - 1].release) < quick
                            && TimerDiff16(t.press, taps[|taps| - 1].release) < term)
    requires Run(cfg, s, TapsInput(key, taps)) == AfterTaps(s, key, taps)
    ensures Run(cfg, s, TapsInput(key, taps + [t])) == AfterTaps(s, key, taps + [t])
  {
    RunConcat(cfg, s, TapsInput(key, taps), TapInput(key, t));
    AnotherTap(cfg, s, key, taps, t, term, quick);
    assert (taps + [t])[..|taps|] == taps;
  }

  lemma {:induction false} NoTaps(cfg: Config, s: State, key: KeyPos)
    requires s.ring == []
    ensures Run(cfg, s, TapsInput(key, [])) == AfterTaps(s, key, [])
  {
    assert s.log + [] == s.log;
  }

  lemma {:induction false} QuickTapsStep(taps: seq<Tap>, term: Time16, quick: Time16)
    requires taps != [] && QuickTaps(taps, term, quick)
    ensures var before, t := taps[..|taps| - 1], taps[|taps| - 1];
      && before + [t] == taps && QuickTaps(before, term, quick) && IsQuick(t, term)
      && (before == [] || (TimerDiff16(t.press, before[|before| - 1].release) < quick
                           && TimerDiff16(t.press, before[|before| - 1].release) < term))
  {
  }

  /**
   * Tap counting: any number of quick taps of a tap key at rest is delivered as
   * pairs of a press and a release, the n-th pair tagged min(n, 15).
   */
  lemma {:induction false} QuickTapsCount(
      cfg: Config, s: State, key: KeyPos, taps: seq<Tap>, term: Time16, quick: Time16)
    requires IsIdle(s) && s.ring == [] && IsTapAction(cfg.actionOf(s.log, key))
    requires TermsAtLeast(cfg, key, term, quick) && QuickTaps(taps, term, quick)
    ensures Run(cfg, s, TapsInput(key, taps)) == AfterTaps(s, key, taps)
    decreases |taps|
  {
    if taps == [] {
      NoTaps(cfg, s, key);
    } else {
      var n := |taps| - 1;
      QuickTapsStep(taps, term, quick);
      QuickTapsCount(cfg, s, key, taps[..n], term, quick);
      TapsExtend(cfg, s, key, taps[..n], taps[n], term, quick);
    }
  }
}
