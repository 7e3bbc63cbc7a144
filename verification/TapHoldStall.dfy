/**
 * A run that leaves the entry condition of TapHoldOrder: two mod-tap keys go
 * down, the main loop stalls so that no tick arrives, and a plain key is typed.
 * Its release is delivered before its press.
 */
module TapHoldStall {
  import opened KeyEvents
  import opened Actions
  import opened TapHold
  import opened TapHoldOrder

  /** Row 0 holds mod-tap keys, every other row plain keys; the term is 200 ms throughout. */
  function Stalled(): Config {
    Config((log, key: KeyPos) => if key.row == 0 then 0x2104 else 0x0004,
           (log, t) => 200, (log, t) => 200, (log, t) => false, (log, t) => false)
  }

  const MOD1 := Event(KeyPos(0, 0), 0, KeyEvent, true)
  const MOD2 := Event(KeyPos(0, 1), 10, KeyEvent, true)
  const DOWN := Event(KeyPos(1, 0), 300, KeyEvent, true)
  const UP := Event(KeyPos(1, 0), 301, KeyEvent, false)

  function Plain(e: Event): Record { Record(e, NO_TAP) }
  function Interrupted(e: Event): Record { Record(e, TapInfo(true, 0)) }

  /** After the plain key's press: both mod-tap keys delivered, the press left in the ring. */
  function Stuck(): State { State(NO_RECORD, [Plain(DOWN)], [Handed(Interrupted(MOD1)), Handed(Plain(MOD2))]) }

  lemma {:induction false} FirstCalls()
    ensures Process(Stalled(), INITIAL, Plain(MOD1)) == State(Plain(MOD1), [], [])
    ensures Process(Stalled(), State(Plain(MOD1), [], []), Plain(MOD2))
            == State(Interrupted(MOD1), [Plain(MOD2)], [])
  {
    var s := State(Plain(MOD1), [], []);
    assert Admit(Stalled(), s, Plain(MOD2)) == State(Interrupted(MOD1), [Plain(MOD2)], []);
  }

  lemma {:induction false} ThirdCall()
    ensures Process(Stalled(), State(Interrupted(MOD1), [Plain(MOD2)], []), Plain(DOWN)) == Stuck()
  {
    var cfg := Stalled();
    var s1 := State(NO_RECORD, [Plain(MOD2), Plain(DOWN)], [Handed(Interrupted(MOD1))]);
    assert Admit(cfg, State(Interrupted(MOD1), [Plain(MOD2)], []), Plain(DOWN)) == s1;
    var s2 := State(Plain(MOD2), [Plain(DOWN)], [Handed(Interrupted(MOD1))]);
    assert Advance(Step(cfg, s1, Plain(MOD2))) == s2;
    assert Drain(cfg, s1) == Drain(cfg, s2);
    assert Step(cfg, s2, Plain(DOWN)) == StepResult(Stuck(), Plain(DOWN), false);
    assert Drain(cfg, s2) == Advance(StepResult(Stuck(), Plain(DOWN), false));
  }

  lemma {:induction false} FourthCall()
    ensures Process(Stalled(), Stuck(), Plain(UP))
            == State(NO_RECORD, [], Stuck().log + [Handed(Plain(UP)), Handed(Plain(DOWN))])
  {
    var s := State(NO_RECORD, [Plain(DOWN)], Stuck().log + [Handed(Plain(UP))]);
    assert Admit(Stalled(), Stuck(), Plain(UP)) == s;
    assert Advance(Step(Stalled(), s, Plain(DOWN)))
           == State(NO_RECORD, [], Stuck().log + [Handed(Plain(UP)), Handed(Plain(DOWN))]);
  }

  /** The last call is the one entered outside the condition. */
  lemma {:induction false} EnteredOutOfTurn()
    ensures !KeepsTurn(Stalled(), Stuck(), UP)
  {
  }

  lemma {:induction false} AlternatingExtends(input: seq<Event>, e: Event)
    requires AlternatingInput(input) && Arrivals(input) == input && !e.IsTick() && Alternates(input, e)
    ensures AlternatingInput(input + [e]) && Arrivals(input + [e]) == input + [e]
  {
    assert (input + [e])[..|input|] == input;
  }

  lemma {:induction false} InputAlternates()
    ensures AlternatingInput([MOD1, MOD2, DOWN, UP])
  {
    AlternatingExtends([], MOD1);
    SelectNone(OfKey(MOD2.key), [MOD1]);
    AlternatingExtends([MOD1], MOD2);
    SelectNone(OfKey(DOWN.key), [MOD1, MOD2]);
    AlternatingExtends([MOD1, MOD2], DOWN);
    SelectConcat(OfKey(UP.key), [MOD1, MOD2], [DOWN]);
    AlternatingExtends([MOD1, MOD2, DOWN], UP);
    assert [] + [MOD1] == [MOD1] && [MOD1] + [MOD2] == [MOD1, MOD2];
    assert [MOD1, MOD2] + [DOWN] == [MOD1, MOD2, DOWN] && [MOD1, MOD2, DOWN] + [UP] == [MOD1, MOD2, DOWN, UP];
  }

  lemma {:induction false} RunExtends(cfg: Config, input: seq<Event>, e: Event, s: State, s': State)
    requires Run(cfg, INITIAL, input) == s && Process(cfg, s, Plain(e)) == s'
    ensures Run(cfg, INITIAL, input + [e]) == s'
  {
    assert (input + [e])[..|input|] == input;
  }

  lemma {:induction false} RunToStuck()
    ensures Run(Stalled(), INITIAL, [MOD1, MOD2, DOWN]) == Stuck()
  {
    var cfg, s1, s2 := Stalled(), State(Plain(MOD1), [], []), State(Interrupted(MOD1), [Plain(MOD2)], []);
    FirstCalls();
    ThirdCall();
    RunExtends(cfg, [], MOD1, INITIAL, s1);
    RunExtends(cfg, [] + [MOD1], MOD2, s1, s2);
    RunExtends(cfg, [] + [MOD1] + [MOD2], DOWN, s2, Stuck());
    assert [] + [MOD1] + [MOD2] + [DOWN] == [MOD1, MOD2, DOWN];
  }

  /**
   * The condition is needed: from this alternating input nothing is lost or left
   * waiting, yet the plain key's release is delivered before its press.
   */
  lemma {:induction false} OrderCanBreak()
    ensures AlternatingInput([MOD1, MOD2, DOWN, UP])
    ensures Run(Stalled(), INITIAL, [MOD1, MOD2, DOWN, UP])
            == State(NO_RECORD, [],
                     [Handed(Interrupted(MOD1)), Handed(Plain(MOD2)), Handed(Plain(UP)), Handed(Plain(DOWN))])
  {
    InputAlternates();
    RunToStuck();
    FourthCall();
    var s := State(NO_RECORD, [],
      [Handed(Interrupted(MOD1)), Handed(Plain(MOD2)), Handed(Plain(UP)), Handed(Plain(DOWN))]);
    RunExtends(Stalled(), [MOD1, MOD2, DOWN], UP, Stuck(), s);
    assert [MOD1, MOD2, DOWN] + [UP] == [MOD1, MOD2, DOWN, UP];
  }
}
