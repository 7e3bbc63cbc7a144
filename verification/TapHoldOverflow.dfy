/**
 * A run in which the ring overflows and a momentary layer stays on although all keys
 * are up: its key's release waited behind an undecided key and was thrown away, and
 * clearing the keyboard leaves the layers alone.
 */
module TapHoldOverflow {
  import opened KeyEvents
  import opened Actions
  import opened TapHold
  import opened TapHoldOrder
  import opened TapHoldTrace
  import BoardState
  import Pipeline

  const M := KeyPos(0, 0)
  const J := KeyPos(0, 1)
  const K := KeyPos(0, 2)

  /** M switches layer 1 on while it is down, J is a mod-tap key, all others are plain. */
  function OneLayerKey(): Config {
    Config((log, key) => if key == M then 0xA1F1 else if key == J then 0x2104 else 0x0004,
           (log, t) => 200, (log, t) => 200, (log, t) => false, (log, t) => false)
  }

  function Down(key: KeyPos, time: Time16): Event { Event(key, time, KeyEvent, true) }
  function Up(key: KeyPos, time: Time16): Event { Event(key, time, KeyEvent, false) }
  function Raw(e: Event): Record { Record(e, NO_TAP) }

  /** The layer key goes down, the mod-tap key goes down, the layer key goes up, and another key is typed. */
  const EVENTS := [
    Down(M, 0), Down(J, 10), Up(M, 20), Down(K, 30), Up(K, 40), Down(K, 50), Up(K, 60), Down(K, 70), Up(K, 80),
    Up(J, 90)]

  const LOG1 := [Handed(Raw(Down(M, 0)))]

  function Cut(): Record { Record(Down(J, 10), TapInfo(true, 0)) }
  function CutTap(): Record { Record(Down(J, 10), TapInfo(true, 1)) }

  const WAITING := [
    Raw(Up(M, 20)), Raw(Down(K, 30)), Raw(Up(K, 40)), Raw(Down(K, 50)), Raw(Up(K, 60)), Raw(Down(K, 70)),
    Raw(Up(K, 80))]

  const LOST := [Up(M, 20), Down(K, 30), Up(K, 40), Down(K, 50), Up(K, 60), Down(K, 70), Up(K, 80), Up(J, 90)]

  const LOG3 := [Handed(Raw(Down(M, 0))), Handed(CutTap()), Overflow(LOST)]

  /** The state before the i-th event. */
  function StateAt(i: nat): State
    requires i <= 10
  {
    if i == 0 then INITIAL
    else if i == 1 then State(NO_RECORD, [], LOG1)
    else if i <= 3 then State(Raw(Down(J, 10)), WAITING[..i - 2], LOG1)
    else if i <= 9 then State(Cut(), WAITING[..i - 2], LOG1)
    else State(NO_RECORD, [], LOG3)
  }

  /** The layer key's release is kept back, and everything behind it waits. */
  lemma {:induction false} HeadWaits(t: Record, ring: seq<Record>)
    requires (t == Raw(Down(J, 10)) || t == Cut()) && ring != [] && ring[0] == WAITING[0]
    requires forall i :: 0 <= i < |ring| ==> ring[i].event.key != M || !ring[i].event.pressed
    ensures Drain(OneLayerKey(), State(t, ring, LOG1)) == State(t, ring, LOG1)
  {
    assert IsRetained(0xA1F1, 0);
    assert Step(OneLayerKey(), State(t, ring, LOG1), ring[0]) == StepResult(State(t, ring, LOG1), ring[0], false);
  }

  lemma {:induction false} Waits(i: nat)
    requires 2 <= i < 9
    ensures Process(OneLayerKey(), StateAt(i), WAITING[i - 2]) == StateAt(i + 1)
  {
    var s, r := StateAt(i), WAITING[i - 2];
    var ring := WAITING[..i - 1];
    assert s.ring + [r] == ring;
    if i > 2 && !r.event.pressed {
      assert s.ring[i - 3].event.key == K && s.ring[i - 3].event.pressed;
    }
    assert IsRetained(0xA1F1, 0);
    assert Admit(OneLayerKey(), s, r) == State(StateAt(i + 1).tapping, ring, LOG1);
    HeadWaits(StateAt(i + 1).tapping, ring);
  }

  lemma {:induction false} FirstCalls()
    ensures Process(OneLayerKey(), INITIAL, Raw(Down(M, 0))) == StateAt(1)
    ensures Process(OneLayerKey(), StateAt(1), Raw(Down(J, 10))) == StateAt(2)
  {
    assert !IsTapAction(0xA1F1) && IsTapAction(0x2104);
  }

  lemma {:induction false} LastCall()
    ensures Process(OneLayerKey(), StateAt(9), Raw(Up(J, 90))) == StateAt(10)
  {
    var s := StateAt(9);
    assert WAITING[..7] == WAITING;
    var t := State(CutTap(), WAITING, LOG1 + [Handed(CutTap())]);
    assert Step(OneLayerKey(), s, Raw(Up(J, 90))) == StepResult(t, Raw(Up(J, 90)).(tap := CutTap().tap), false);
    assert Pending(t) + [Up(J, 90)] == LOST;
    assert LOG1 + [Handed(CutTap())] + [Overflow(LOST)] == LOG3;
    assert Admit(OneLayerKey(), s, Raw(Up(J, 90))) == StateAt(10);
  }

  lemma {:induction false} AllCalls(events: seq<Event>, states: seq<State>)
    requires events == EVENTS && states == seq(11, i requires 0 <= i < 11 => StateAt(i))
    ensures Traces(OneLayerKey(), events, states)
  {
    forall i | 0 <= i < |events|
      ensures Process(OneLayerKey(), states[i], Raw(events[i])) == states[i + 1]
    {
      if i < 2 {
        FirstCalls();
      } else if i < 9 {
        Waits(i);
        assert WAITING[i - 2] == Raw(events[i]);
      } else {
        LastCall();
      }
    }
  }

  // ---------------------------------------------------------------- what is left

  /** What each key holds, on any layer. */
  function Shares(): BoardState.Keymap {
    BoardState.Keymap(1, 3, (layer, key) => false,
      (layer, key: KeyPos, tapped) =>
        if key == M then {BoardState.Layer(1)}
        else if key == J then (if tapped then {BoardState.Keycode(4)} else {BoardState.RealMod(0)})
        else if key == K then {BoardState.Keycode(5)}
        else {})
  }

  lemma {:induction false} AllAlternate(es: seq<Event>)
    requires es == EVENTS
    ensures forall i :: 0 <= i < |es| ==> es[i].IsTick() || AlternatesAt(es, i)
  {
    assert Apart(es, M, 0, 0) && Apart(es, J, 0, 1) && Apart(es, K, 0, 3);
    assert es[0].key == M && Apart(es, M, 0 + 1, 2);
    assert es[1].key == J && Apart(es, J, 1 + 1, 9);
    forall i | 4 <= i < 9
      ensures AlternatesAt(es, i)
    {
      assert es[i - 1].key == es[i].key && Apart(es, K, i - 1 + 1, i);
    }
  }

  /** The last event of each key, if any, is its release. */
  ghost predicate NoneDown(es: seq<Event>) {
    forall key :: var own := Select(OfKey(key), es); own == [] || !own[|own| - 1].pressed
  }

  lemma {:induction false} AllUp(es: seq<Event>, key: KeyPos)
    requires es == EVENTS
    ensures var own := Select(OfKey(key), Arrivals(es[..|es|])); own == [] || !own[|own| - 1].pressed
  {
    var n := |es|;
    if key == M || key == J || key == K {
      var p := if key == M then 2 else if key == K then 8 else 9;
      assert es[p].key == key && !es[p].pressed && Apart(es, key, p + 1, n);
      LastSelected(es, key, p, n);
    } else {
      assert Apart(es, key, 0, n);
      SelectKept(es, key, 0, n);
    }
  }

  lemma {:induction false} BoardLeft()
    ensures BoardState.RunBoard(Shares(), BoardState.Initial({}), Pipeline.OpsOf(LOG3)).on == {BoardState.Layer(1)}
  {
    var b := BoardState.Initial({});
    var m, j := BoardState.Process(M, true, false), BoardState.Process(J, true, true);
    assert LOG3[..2] == [LOG3[0], LOG3[1]] && LOG3[..2][..1] == [LOG3[0]] && [LOG3[0]][..0] == [];
    assert Pipeline.OpsOf([LOG3[0]]) == [m];
    assert Pipeline.OpsOf(LOG3[..2]) == [m, j];
    assert Pipeline.OpsOf(LOG3) == [m, j, BoardState.ClearKeyboard];
    assert [m, j, BoardState.ClearKeyboard][..2] == [m, j] && [m, j][..1] == [m] && [m][..0] == [];
    assert BoardState.RunBoard(Shares(), b, [m]).on == {BoardState.Layer(1)};
    assert BoardState.RunBoard(Shares(), b, [m, j]).on == {BoardState.Layer(1), BoardState.Keycode(4)};
  }

  /**
   * All keys are up and nothing waits, but the momentary layer is on: the release
   * that would have switched it off is among those thrown away.
   */
  lemma {:induction false} LayerStaysOn(input: seq<Event>, s: State)
    requires input == EVENTS && s == Run(OneLayerKey(), INITIAL, input)
    ensures AlternatingInput(input) && Pending(s) == [] && Shares().Valid() && NoneDown(Arrivals(input))
    ensures Pipeline.Drives(s.log, Pipeline.OpsOf(s.log))
    ensures BoardState.RunBoard(Shares(), BoardState.Initial({}), Pipeline.OpsOf(s.log)).on == {BoardState.Layer(1)}
    ensures Up(M, 20) in Lost(s.log)
  {
    RunEnds(input);
    KeysUp(input);
    LeftOver(s);
  }

  lemma {:induction false} RunEnds(input: seq<Event>)
    requires input == EVENTS
    ensures AlternatingInput(input) && Run(OneLayerKey(), INITIAL, input) == State(NO_RECORD, [], LOG3)
  {
    var states := seq(11, i requires 0 <= i < 11 => StateAt(i));
    AllCalls(input, states);
    AllAlternate(input);
    LastState(OneLayerKey(), input, states);
  }

  lemma {:induction false} KeysUp(input: seq<Event>)
    requires input == EVENTS
    ensures NoneDown(Arrivals(input))
  {
    assert input[..|input|] == input;
    forall key
      ensures var own := Select(OfKey(key), Arrivals(input)); own == [] || !own[|own| - 1].pressed
    {
      AllUp(input, key);
    }
  }

  lemma {:induction false} LastState(cfg: Config, input: seq<Event>, states: seq<State>)
    requires Traces(cfg, input, states)
    requires forall i :: 0 <= i < |input| ==> input[i].IsTick() || AlternatesAt(input, i)
    ensures AlternatingInput(input) && Run(cfg, INITIAL, input) == states[|input|]
  {
    TraceRuns(cfg, input, states, |input|);
    TraceAlternates(input, |input|);
    assert input[..|input|] == input;
  }

  lemma {:induction false} LeftOver(s: State)
    requires s == State(NO_RECORD, [], LOG3)
    ensures Pending(s) == [] && Shares().Valid() && Up(M, 20) in Lost(s.log)
    ensures Pipeline.Drives(s.log, Pipeline.OpsOf(s.log))
    ensures BoardState.RunBoard(Shares(), BoardState.Initial({}), Pipeline.OpsOf(s.log)).on == {BoardState.Layer(1)}
  {
    BoardLeft();
    AllFromLog(Pipeline.OpsOf(LOG3));
    assert LOST[0] == Up(M, 20);
    assert LOG3[2] == Overflow(LOST);
  }

  lemma {:induction false} AllFromLog(ops: seq<BoardState.Op>)
    requires forall i :: 0 <= i < |ops| ==> Pipeline.IsFromLog(ops[i])
    ensures Pipeline.FromLog(ops) == ops
  {
    if ops != [] {
      AllFromLog(ops[..|ops| - 1]);
    }
  }
}
