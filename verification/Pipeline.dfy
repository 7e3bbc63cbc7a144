/**
 * From the matrix to the modifiers: the scanner, the tap/hold resolver and record
 * processing together leave nothing on that no key holds.  Without tap-or-hold keys
 * this needs no assumption on how events arrive; with them, keys have to arrive in
 * turn and no key may be taken up again without a look at its waiting release.
 */
module Pipeline {
  import opened KeyEvents
  import opened Actions
  import TapHold
  import TapHoldLedger
  import TapHoldOrder
  import TapHoldPairs
  import TapHoldRelease
  import opened BoardState
  import Matrix
  import HandSwap

  // ---------------------------------------------------------------- from the log to the board

  /** A record is processed; an overflow clears the keyboard. */
  function OpFor(o: TapHold.Out): Op {
    if o.Overflow? then ClearKeyboard
    else Process(o.record.event.key, o.record.event.pressed, o.record.tap.count > 0)
  }

  function OpsOf(log: seq<TapHold.Out>): (ops: seq<Op>)
    ensures |ops| == |log| && forall i :: 0 <= i < |ops| ==> IsFromLog(ops[i])
  {
    if log == [] then [] else OpsOf(log[..|log| - 1]) + [OpFor(log[|log| - 1])]
  }

  predicate IsFromLog(op: Op) { op.Process? || op.ClearKeyboard? }

  function FromLog(ops: seq<Op>): seq<Op> {
    if ops == [] then []
    else FromLog(ops[..|ops| - 1]) + (if IsFromLog(ops[|ops| - 1]) then [ops[|ops| - 1]] else [])
  }

  /**
   * The operations process the log.  Clearing the weak modifiers, which happens when
   * a press arrives, and changes of the default layers can come anywhere between.
   */
  predicate Drives(log: seq<TapHold.Out>, ops: seq<Op>) { FromLog(ops) == OpsOf(log) }

  lemma {:induction false} SplitLast<T>(a: seq<T>, x: T, b: seq<T>, y: T)
    requires a + [x] == b + [y]
    ensures a == b && x == y
  {
    assert (a + [x])[|a|] == x && (b + [y])[|b|] == y;
    assert a == (a + [x])[..|a|] && b == (b + [y])[..|b|];
  }

  /** Driven by a log in which presses and releases match, the board alternates, with the log's keys down. */
  lemma {:induction false} LogDrivesBoard(log: seq<TapHold.Out>, ops: seq<Op>)
    requires TapHoldPairs.Paired(log) && Drives(log, ops)
    ensures BoardState.Alternating(ops) && Down(ops) == TapHoldPairs.DownIn(log)
    decreases |ops|
  {
    if ops != [] {
      var before, op := ops[..|ops| - 1], ops[|ops| - 1];
      if IsFromLog(op) {
        var n := |log| - 1;
        SplitLast(FromLog(before), op, OpsOf(log[..n]), OpFor(log[n]));
        LogDrivesBoard(log[..n], before);
      } else {
        assert FromLog(before) + [] == FromLog(before);
        LogDrivesBoard(log, before);
      }
    }
  }

  // ---------------------------------------------------------------- the resolver without tap keys

  ghost predicate NoTapKeys(cfg: TapHold.Config) {
    forall log: seq<TapHold.Out>, key: KeyPos :: !IsTapAction(cfg.actionOf(log, key))
  }

  function HandedAll(es: seq<Event>): seq<TapHold.Out> {
    if es == [] then [] else HandedAll(es[..|es| - 1]) + [TapHold.Handed(Record(es[|es| - 1], NO_TAP))]
  }

  /** Without tap keys the resolver passes every event on at once, in order. */
  lemma {:induction false} PassesThrough(cfg: TapHold.Config, input: seq<Event>)
    requires NoTapKeys(cfg)
    ensures TapHold.Run(cfg, TapHold.INITIAL, input)
            == TapHold.State(NO_RECORD, [], HandedAll(TapHold.Arrivals(input)))
  {
    if input != [] {
      var before, e := input[..|input| - 1], input[|input| - 1];
      PassesThrough(cfg, before);
      var es := TapHold.Arrivals(before);
      if e.IsTick() {
        assert es + [] == es;
      } else {
        assert (es + [e])[..|es|] == es;
      }
    }
  }

  /** The events carry these changes, whatever their times and the ticks between them. */
  predicate Carries(es: seq<Event>, cs: seq<Matrix.KeyChange>) {
    |es| == |cs| && forall i :: 0 <= i < |es| ==> es[i].key == cs[i].key && es[i].pressed == cs[i].pressed
  }

  /** Handed on at once, alternating changes are paired, with the same keys down. */
  lemma {:induction false} ChangesArePaired(es: seq<Event>, cs: seq<Matrix.KeyChange>)
    requires Carries(es, cs) && Matrix.Alternating({}, cs)
    ensures var log := HandedAll(es); var down := TapHoldPairs.DownIn(log);
      TapHoldPairs.Paired(log) && (forall k :: k in down ==> !down[k]) && down.Keys == Matrix.Replay({}, cs)
  {
    if es != [] {
      var n := |es| - 1;
      ChangesArePaired(es[..n], cs[..n]);
      TapHoldPairs.PairedGrows(HandedAll(es[..n]), TapHold.Handed(Record(es[n], NO_TAP)));
    }
  }

  /** Without tap keys, what is on is held by a key that the changes leave down. */
  lemma {:induction false} ChangesToBoard(
      cs: seq<Matrix.KeyChange>, cfg: TapHold.Config, input: seq<Event>, km: Keymap, defaultLayers: set<nat>,
      ops: seq<Op>)
    requires Matrix.Alternating({}, cs) && Carries(TapHold.Arrivals(input), cs) && NoTapKeys(cfg) && km.Valid()
    requires Drives(TapHold.Run(cfg, TapHold.INITIAL, input).log, ops)
    ensures var b := RunBoard(km, Initial(defaultLayers), ops);
      && AllHeld(km, b, Down(ops)) && Down(ops).Keys == Matrix.Replay({}, cs)
      && (Matrix.Replay({}, cs) == {} ==> b.on == {})
  {
    PassesThrough(cfg, input);
    ChangesArePaired(TapHold.Arrivals(input), cs);
    LogDrivesBoard(HandedAll(TapHold.Arrivals(input)), ops);
    NothingStuck(km, defaultLayers, ops);
  }

  /**
   * End to end without tap keys: after any sequence of scans, with the reported
   * changes arriving at any times and any ticks between them, everything that is on
   * is held by a key the matrix last reported as pressed; with none pressed, nothing
   * is on.
   */
  lemma {:induction false} MatrixToBoard(
      isKey: Matrix.RealKey, scans: seq<seq<Matrix.MatrixBits.Row>>, rows: nat, cols: nat,
      cfg: TapHold.Config, input: seq<Event>, km: Keymap, defaultLayers: set<nat>, ops: seq<Op>)
    requires Matrix.AreScans(scans, rows, cols) && NoTapKeys(cfg) && km.Valid()
    requires Carries(TapHold.Arrivals(input), Matrix.AllChanges(isKey, scans, rows, cols))
    requires Drives(TapHold.Run(cfg, TapHold.INITIAL, input).log, ops)
    ensures var b := RunBoard(km, Initial(defaultLayers), ops);
      var pressed := Matrix.Pressed(Matrix.AfterScans(isKey, scans, rows, cols));
      && AllHeld(km, b, Down(ops)) && Down(ops).Keys == pressed
      && (pressed == {} ==> b.on == {})
  {
    Matrix.EventStream(isKey, scans, rows, cols);
    ChangesToBoard(Matrix.AllChanges(isKey, scans, rows, cols), cfg, input, km, defaultLayers, ops);
  }

  // ---------------------------------------------------------------- the main loop

  lemma {:induction false} ArrivalsConcat(x: seq<Event>, y: seq<Event>)
    ensures TapHold.Arrivals(x + y) == TapHold.Arrivals(x) + TapHold.Arrivals(y)
  {
    if y == [] {
      assert x + y == x;
    } else {
      assert (x + y)[..|x + y| - 1] == x + y[..|y| - 1];
      ArrivalsConcat(x, y[..|y| - 1]);
    }
  }

  lemma {:induction false} NoTicksInside(es: seq<Event>)
    requires forall i :: 0 <= i < |es| ==> !es[i].IsTick()
    ensures TapHold.Arrivals(es) == es
  {
    if es != [] {
      NoTicksInside(es[..|es| - 1]);
    }
  }

  /** The events that arrive in one round are those of its changes. */
  lemma {:induction false} RoundCarries(isKey: Matrix.RealKey, s: Matrix.Seen, r: Matrix.Round, cols: nat)
    requires Matrix.IsMatrix(s.matrix, |r.cur|, cols) && Matrix.IsMatrix(r.cur, |r.cur|, cols) && r.processes
    ensures Carries(TapHold.Arrivals(Matrix.RoundEvents(isKey, s, r, cols)), Matrix.RoundChanges(isKey, s, r, cols))
  {
    var events := Matrix.RoundEvents(isKey, s, r, cols);
    if Matrix.IsChanged(s, r) {
      NoTicksInside(events);
    } else {
      assert events == [] || (|events| == 1 && events[0].IsTick() && events[..0] == []);
      assert TapHold.Arrivals(events) == [];
      if r.canRead {
        Matrix.UnchangedReportsNothing(Matrix.Withheld(isKey, r.cur, cols), r.cur, cols);
      }
    }
  }

  /**
   * What the main loop executes over any rounds, ticks left out, carries exactly the
   * changes that its scans report.
   */
  lemma {:induction false} LoopCarries(isKey: Matrix.RealKey, rounds: seq<Matrix.Round>, rows: nat, cols: nat)
    requires Matrix.AreRounds(rounds, rows, cols) && forall i :: 0 <= i < |rounds| ==> rounds[i].processes
    ensures var s := Matrix.Seen(Matrix.NothingPressed(rows, cols), 0);
      Carries(TapHold.Arrivals(Matrix.LoopEvents(isKey, s, rounds, rows, cols)),
              Matrix.AllChanges(isKey, Matrix.ScansOf(rounds, rows, cols), rows, cols))
  {
    if rounds != [] {
      var before, r := rounds[..|rounds| - 1], rounds[|rounds| - 1];
      var s := Matrix.Seen(Matrix.NothingPressed(rows, cols), 0);
      LoopCarries(isKey, before, rows, cols);
      Matrix.RoundsAreScans(isKey, before, rows, cols);
      NextRoundCarries(isKey, Matrix.AfterRounds(isKey, s, before, rows, cols), r,
                       Matrix.ScansOf(before, rows, cols), Matrix.LoopEvents(isKey, s, before, rows, cols), rows, cols);
    }
  }

  lemma {:induction false} NextRoundCarries(
      isKey: Matrix.RealKey, seen: Matrix.Seen, r: Matrix.Round, scans: seq<seq<Matrix.MatrixBits.Row>>,
      events: seq<Event>, rows: nat, cols: nat)
    requires Matrix.IsMatrix(seen.matrix, rows, cols) && Matrix.IsMatrix(r.cur, rows, cols) && r.processes
    requires Matrix.AreScans(scans, rows, cols) && seen.matrix == Matrix.AfterScans(isKey, scans, rows, cols)
    requires Carries(TapHold.Arrivals(events), Matrix.AllChanges(isKey, scans, rows, cols))
    ensures var scans' := scans + (if r.canRead then [r.cur] else []);
      Carries(TapHold.Arrivals(events + Matrix.RoundEvents(isKey, seen, r, cols)),
              Matrix.AllChanges(isKey, scans', rows, cols))
  {
    var more := Matrix.RoundEvents(isKey, seen, r, cols);
    RoundCarries(isKey, seen, r, cols);
    ArrivalsConcat(events, more);
    var cs := Matrix.AllChanges(isKey, scans, rows, cols);
    if r.canRead {
      assert (scans + [r.cur])[..|scans|] == scans;
      assert Matrix.AllChanges(isKey, scans + [r.cur], rows, cols) == cs + Matrix.RoundChanges(isKey, seen, r, cols);
    } else {
      assert scans + [] == scans && cs + [] == cs;
    }
    CarriesConcat(TapHold.Arrivals(events), cs, TapHold.Arrivals(more), Matrix.RoundChanges(isKey, seen, r, cols));
  }

  lemma {:induction false} CarriesConcat(
      es: seq<Event>, cs: seq<Matrix.KeyChange>, es': seq<Event>, cs': seq<Matrix.KeyChange>)
    requires Carries(es, cs) && Carries(es', cs')
    ensures Carries(es + es', cs + cs')
  {
  }

  /**
   * While a row is held back, the resolver is not called at all: an undecided key
   * stays undecided, however long it is held.
   */
  lemma {:induction false} HeldBackStopsTimeouts(
      isKey: Matrix.RealKey, seen: Matrix.Seen, rounds: seq<Matrix.Round>, cur: seq<Matrix.MatrixBits.Row>, cols: nat,
      cfg: TapHold.Config, s: TapHold.State)
    requires Matrix.IsMatrix(seen.matrix, |cur|, cols) && Matrix.IsMatrix(cur, |cur|, cols)
    requires Matrix.AreRounds(rounds, |cur|, cols)
    requires forall i :: 0 <= i < |rounds| ==> rounds[i].canRead && rounds[i].cur == cur
    requires Matrix.Settled(isKey, seen.matrix, cur, cols) && Matrix.HoldsBack(isKey, seen.matrix, cur, cols)
    ensures TapHold.Run(cfg, s, Matrix.LoopEvents(isKey, seen, rounds, |cur|, cols)) == s
  {
    Matrix.HeldBackStopsTicks(isKey, seen, rounds, cur, cols);
  }

  // ---------------------------------------------------------------- with swapped hands

  /**
   * End to end with hands swapped at any times: as long as no key is pressed that
   * acts as a position another key acts as, what is on is held by the position some
   * pressed key acts as, and nothing is on when no key is pressed.
   */
  lemma {:induction false} SwappedToBoard(
      isKey: Matrix.RealKey, scans: seq<seq<Matrix.MatrixBits.Row>>, rows: nat, cols: nat,
      mirror: HandSwap.Mirror, swaps: seq<HandSwap.Op>,
      cfg: TapHold.Config, input: seq<Event>, km: Keymap, defaultLayers: set<nat>, ops: seq<Op>)
    requires Matrix.AreScans(scans, rows, cols) && NoTapKeys(cfg) && km.Valid()
    requires HandSwap.Changes(swaps) == Matrix.AllChanges(isKey, scans, rows, cols)
    requires HandSwap.NoClash(mirror, swaps)
    requires Carries(TapHold.Arrivals(input), HandSwap.Acted(mirror, swaps))
    requires Drives(TapHold.Run(cfg, TapHold.INITIAL, input).log, ops)
    ensures var b := RunBoard(km, Initial(defaultLayers), ops);
      var pressed := Matrix.Pressed(Matrix.AfterScans(isKey, scans, rows, cols));
      && HandSwap.ActsAs(mirror, swaps).Keys == pressed
      && AllHeld(km, b, Down(ops)) && Down(ops).Keys == HandSwap.ActsAs(mirror, swaps).Values
      && (pressed == {} ==> b.on == {})
  {
    Matrix.EventStream(isKey, scans, rows, cols);
    HandSwap.DownAsChanged(mirror, swaps);
    HandSwap.NoClashAlternates(mirror, swaps);
    ChangesToBoard(HandSwap.Acted(mirror, swaps), cfg, input, km, defaultLayers, ops);
  }

  // ---------------------------------------------------------------- with tap keys

  /** A key that is down in the log, with nothing waiting, was last in line as a press. */
  lemma {:induction false} DownIsLast(s: TapHold.State, key: KeyPos)
    requires TapHoldPairs.Paired(s.log) && TapHold.Pending(s) == [] && key in TapHoldPairs.DownIn(s.log)
    ensures var own := TapHoldOrder.Select(TapHoldOrder.OfKey(key), TapHold.Line(s));
      own != [] && own[|own| - 1].pressed
  {
    TapHoldRelease.DownWasPressed(s.log, key);
    assert TapHold.Line(s) == TapHold.Delivered(s.log) + TapHold.Pending(s) == TapHold.Delivered(s.log);
  }

  /** Events that carry alternating changes alternate, and each key's last tells whether it is down. */
  lemma {:induction false} CarriedAlternate(es: seq<Event>, cs: seq<Matrix.KeyChange>, key: KeyPos)
    requires Carries(es, cs) && Matrix.Alternating({}, cs)
    ensures var own := TapHoldOrder.Select(TapHoldOrder.OfKey(key), es);
      key in Matrix.Replay({}, cs) <==> own != [] && own[|own| - 1].pressed
  {
    if es != [] {
      var n := |es| - 1;
      CarriedAlternate(es[..n], cs[..n], key);
    }
  }

  lemma {:induction false} CarriedNext(es: seq<Event>, e: Event, cs: seq<Matrix.KeyChange>)
    requires Carries(es + [e], cs) && Matrix.Alternating({}, cs)
    ensures Carries(es, cs[..|es|]) && Matrix.Alternating({}, cs[..|es|]) && TapHoldOrder.Alternates(es, e)
  {
    var n := |es|;
    assert (es + [e])[n] == e && cs[n].key == e.key;
    assert forall i :: 0 <= i < n ==> (es + [e])[i] == es[i];
    CarriedAlternate(es, cs[..n], e.key);
  }

  lemma {:induction false} CarriedInput(input: seq<Event>, cs: seq<Matrix.KeyChange>)
    requires Carries(TapHold.Arrivals(input), cs) && Matrix.Alternating({}, cs)
    ensures TapHoldOrder.AlternatingInput(input)
  {
    if input != [] {
      var before, e := input[..|input| - 1], input[|input| - 1];
      var es := TapHold.Arrivals(before);
      if e.IsTick() {
        assert es + [] == es;
        CarriedInput(before, cs);
      } else {
        CarriedNext(es, e, cs);
        CarriedInput(before, cs[..|es|]);
      }
    }
  }

  /**
   * End to end with tap keys: whatever the keymap, the scans, the times, the ticks
   * and the firmware's other decisions, as long as keys arrive in turn, nothing waits
   * as long as the clock takes to go round, and no key is taken up again blindly,
   * everything that is on is held by a key that is down; and once nothing is waiting
   * and no key is pressed, nothing is on.
   */
  lemma {:induction false} TapKeysToBoard(
      isKey: Matrix.RealKey, scans: seq<seq<Matrix.MatrixBits.Row>>, rows: nat, cols: nat,
      cfg: TapHold.Config, input: seq<Event>, km: Keymap, defaultLayers: set<nat>, ops: seq<Op>)
    requires Matrix.AreScans(scans, rows, cols) && km.Valid()
    requires Carries(TapHold.Arrivals(input), Matrix.AllChanges(isKey, scans, rows, cols))
    requires TapHoldOrder.Orderly(cfg, input) && TapHoldRelease.Punctual(cfg, input)
    requires TapHoldRelease.TermNeverGrows(cfg) && TapHoldRelease.Sighted(cfg, input)
    requires Drives(TapHold.Run(cfg, TapHold.INITIAL, input).log, ops)
    ensures var s := TapHold.Run(cfg, TapHold.INITIAL, input);
      var b := RunBoard(km, Initial(defaultLayers), ops);
      var pressed := Matrix.Pressed(Matrix.AfterScans(isKey, scans, rows, cols));
      && AllHeld(km, b, Down(ops)) && Down(ops) == TapHoldPairs.DownIn(s.log)
      && (TapHold.Pending(s) == [] ==> Down(ops).Keys <= pressed)
      && (TapHold.Pending(s) == [] && pressed == {} ==> b.on == {})
  {
    var cs, s := Matrix.AllChanges(isKey, scans, rows, cols), TapHold.Run(cfg, TapHold.INITIAL, input);
    Matrix.EventStream(isKey, scans, rows, cols);
    CarriedInput(input, cs);
    TapHoldRelease.ReleasedAsPressed(cfg, input);
    LogDrivesBoard(s.log, ops);
    NothingStuck(km, defaultLayers, ops);
    if TapHold.Pending(s) == [] {
      TapHoldOrder.RunKeysInOrder(cfg, input);
      DownIsReplayed(s, TapHold.Arrivals(input), cs);
    }
  }

  /** With nothing waiting, the keys down are among those the changes leave down. */
  lemma {:induction false} DownIsReplayed(s: TapHold.State, arrivals: seq<Event>, cs: seq<Matrix.KeyChange>)
    requires TapHoldOrder.KeysInOrder(TapHold.Line(s), arrivals)
    requires TapHoldPairs.Paired(s.log) && TapHold.Pending(s) == []
    requires Carries(arrivals, cs) && Matrix.Alternating({}, cs)
    ensures TapHoldPairs.DownIn(s.log).Keys <= Matrix.Replay({}, cs)
  {
    forall key | key in TapHoldPairs.DownIn(s.log)
      ensures key in Matrix.Replay({}, cs)
    {
      DownIsLast(s, key);
      assert TapHoldOrder.Select(TapHoldOrder.OfKey(key), TapHold.Line(s))
             == TapHoldOrder.Select(TapHoldOrder.OfKey(key), arrivals);
      CarriedAlternate(arrivals, cs, key);
    }
  }

  // ---------------------------------------------------------------- after an overflow

  /** The board once the keyboard was cleared last: the layers that were on, and nothing else. */
  lemma {:induction false} ClearedBoard(km: Keymap, b: Board, log: seq<TapHold.Out>, lost: seq<Event>, ops: seq<Op>)
    returns (before: seq<Op>)
    requires Drives(log + [TapHold.Overflow(lost)], ops)
    ensures before <= ops && Drives(log, before)
    ensures RunBoard(km, b, ops).on == set m | m in RunBoard(km, b, before).on && m.Layer?
    decreases |ops|
  {
    var full := log + [TapHold.Overflow(lost)];
    assert full[..|full| - 1] == log;
    var front, op := ops[..|ops| - 1], ops[|ops| - 1];
    if IsFromLog(op) {
      SplitLast(FromLog(front), op, OpsOf(log), ClearKeyboard);
      before := front;
    } else {
      assert FromLog(front) + [] == FromLog(front);
      before := ClearedBoard(km, b, log, lost, front);
    }
  }

  /** A decision keeps presses and releases in the log matched. */
  lemma {:induction false} RefusedStaysPaired(
      cfg: TapHold.Config, s: TapHold.State, r: Record, res: TapHold.StepResult)
    requires TapHoldLedger.Inv(s) && TapHoldRelease.Turns(s) && TapHoldRelease.GoodAt(s) && r.tap == NO_TAP
    requires res == TapHold.Step(cfg, s, r) && !res.consumed
    ensures TapHoldPairs.Paired(res.state.log)
  {
    if TapHold.IsUndecided(s) {
      TapHoldRelease.UndecidedIsUp(s);
    }
    TapHoldPairs.StepIsOneOf(cfg, s, r, res);
    if TapHoldPairs.TapsFirst(s, r, res) {
      TapHoldPairs.PairedGrows(s.log, TapHold.Handed(res.state.tapping));
    } else {
      TapHoldPairs.KeepsGood(s, r, res, s.ring);
    }
  }

  /** The call that overflows: what it leaves of the resolver, and what the log says. */
  lemma {:induction false} OverflowState(cfg: TapHold.Config, s: TapHold.State, e: Event, res: TapHold.StepResult)
    requires TapHoldLedger.Inv(s) && TapHoldRelease.Turns(s) && TapHoldRelease.GoodAt(s) && !e.IsTick()
    requires res == TapHold.Step(cfg, s, Record(e, NO_TAP)) && TapHoldLedger.Overflows(res)
    ensures var lost := TapHold.Pending(res.state) + [e];
      && TapHold.Process(cfg, s, Record(e, NO_TAP))
         == TapHold.State(NO_RECORD, [], res.state.log + [TapHold.Overflow(lost)])
      && TapHoldPairs.Paired(res.state.log)
      && TapHold.Line(s) + [e] == TapHold.Delivered(res.state.log) + lost
  {
    var r := Record(e, NO_TAP);
    RefusedStaysPaired(cfg, s, r, res);
    TapHoldLedger.StepLedger(cfg, s, r);
    TapHoldLedger.StepKeepsInv(cfg, s, r);
    TapHoldLedger.BalancedFront(s, r, res);
    var front, es := TapHold.Front(s), TapHold.Events(s.ring);
    assert TapHold.Line(s) + [e] == front + es + [e];
  }

  /** The key's last event is a press, or was thrown away. */
  predicate HeldOrLost(es: seq<Event>, key: KeyPos, lost: seq<Event>) {
    var own := TapHoldOrder.Select(TapHoldOrder.OfKey(key), es);
    own != [] && (own[|own| - 1].pressed || own[|own| - 1] in lost)
  }

  /**
   * What a ring overflow leaves on: exactly the layers that were on before the
   * keyboard was cleared, although everything else is off.  Each of them is held by a
   * key that is down in the log; if that key is up, its release was thrown away.
   */
  lemma {:induction false} OverflowLeavesLayers(
      cfg: TapHold.Config, s: TapHold.State, e: Event, res: TapHold.StepResult,
      km: Keymap, defaultLayers: set<nat>, ops: seq<Op>) returns (before: seq<Op>)
    requires TapHoldLedger.Inv(s) && TapHoldRelease.Turns(s) && TapHoldRelease.GoodAt(s) && !e.IsTick()
    requires res == TapHold.Step(cfg, s, Record(e, NO_TAP)) && TapHoldLedger.Overflows(res) && km.Valid()
    requires Drives(TapHold.Process(cfg, s, Record(e, NO_TAP)).log, ops)
    ensures before <= ops && Drives(res.state.log, before)
    ensures var b := RunBoard(km, Initial(defaultLayers), ops);
      && b.on == (set m | m in RunBoard(km, Initial(defaultLayers), before).on && m.Layer?)
      && AllHeld(km, b, Down(ops)) && Down(ops) == TapHoldPairs.DownIn(res.state.log)
    ensures forall key :: key in Down(ops) ==>
      HeldOrLost(TapHold.Line(s) + [e], key, TapHold.Pending(res.state) + [e])
  {
    OverflowState(cfg, s, e, res);
    var lost := TapHold.Pending(res.state) + [e];
    var log := res.state.log;
    before := ClearedBoard(km, Initial(defaultLayers), log, lost, ops);
    PairedOverflow(log, lost);
    LogDrivesBoard(log + [TapHold.Overflow(lost)], ops);
    NothingStuck(km, defaultLayers, ops);
    forall key | key in Down(ops)
      ensures HeldOrLost(TapHold.Line(s) + [e], key, lost)
    {
      LastIsLost(log, key, lost);
    }
  }

  /** What holds after a run in turn in which each tap is decided by the key's own release. */
  lemma {:induction false} AfterOwnReleases(cfg: TapHold.Config, input: seq<Event>, s: TapHold.State)
    requires TapHoldOrder.AlternatingInput(input) && TapHoldOrder.Orderly(cfg, input)
    requires TapHoldRelease.OwnReleases(cfg, input) && s == TapHold.Run(cfg, TapHold.INITIAL, input)
    ensures TapHoldLedger.Inv(s) && TapHoldRelease.Turns(s) && TapHoldRelease.GoodAt(s)
  {
    TapHoldLedger.RunKeepsInv(cfg, input);
    TapHoldRelease.RunTurns(cfg, input);
    TapHoldRelease.MatchesExactly(cfg, input);
  }

  lemma {:induction false} OneMoreCall(cfg: TapHold.Config, input: seq<Event>, e: Event, s: TapHold.State)
    requires s == TapHold.Run(cfg, TapHold.INITIAL, input)
    ensures TapHold.Run(cfg, TapHold.INITIAL, input + [e]) == TapHold.Process(cfg, s, Record(e, NO_TAP))
    ensures !e.IsTick() ==> TapHold.Arrivals(input + [e]) == TapHold.Arrivals(input) + [e]
  {
    assert (input + [e])[..|input|] == input;
  }

  lemma {:induction false} OwnAsArrived(
      line: seq<Event>, arrivals: seq<Event>, e: Event, key: KeyPos, lost: seq<Event>)
    requires TapHoldOrder.KeysInOrder(line, arrivals) && HeldOrLost(line + [e], key, lost)
    ensures HeldOrLost(arrivals + [e], key, lost)
  {
    SameWithLast(TapHoldOrder.OfKey(key), line, arrivals, e);
  }

  lemma {:induction false} SameWithLast(c: TapHoldOrder.Channel, x: seq<Event>, y: seq<Event>, e: Event)
    requires TapHoldOrder.Select(c, x) == TapHoldOrder.Select(c, y)
    ensures TapHoldOrder.Select(c, x + [e]) == TapHoldOrder.Select(c, y + [e])
  {
    TapHoldOrder.SelectConcat(c, x, [e]);
    TapHoldOrder.SelectConcat(c, y, [e]);
  }

  /**
   * The same over a run: its last call overflows the ring, and before, keys arrived in
   * turn and each tap was decided by the key's own release.  Every layer that is left
   * on is held by a key whose last event is its press, or a release thrown away.
   */
  lemma {:induction false} OverflowInRun(
      cfg: TapHold.Config, input: seq<Event>, e: Event, s: TapHold.State, res: TapHold.StepResult,
      km: Keymap, defaultLayers: set<nat>, ops: seq<Op>)
      returns (before: seq<Op>)
    requires TapHoldOrder.AlternatingInput(input) && TapHoldOrder.Orderly(cfg, input)
    requires TapHoldRelease.OwnReleases(cfg, input) && s == TapHold.Run(cfg, TapHold.INITIAL, input)
    requires res == TapHold.Step(cfg, s, Record(e, NO_TAP)) && TapHoldLedger.Overflows(res)
    requires !e.IsTick() && km.Valid() && Drives(TapHold.Run(cfg, TapHold.INITIAL, input + [e]).log, ops)
    ensures before <= ops
    ensures var b := RunBoard(km, Initial(defaultLayers), ops);
      && b.on == (set m | m in RunBoard(km, Initial(defaultLayers), before).on && m.Layer?)
      && AllHeld(km, b, Down(ops))
    ensures forall key :: key in Down(ops) ==>
      HeldOrLost(TapHold.Arrivals(input + [e]), key, TapHold.Pending(res.state) + [e])
  {
    OneMoreCall(cfg, input, e, s);
    AfterOwnReleases(cfg, input, s);
    before := OverflowLeavesLayers(cfg, s, e, res, km, defaultLayers, ops);
    var lost := TapHold.Pending(res.state) + [e];
    TapHoldOrder.RunKeysInOrder(cfg, input);
    forall key | key in Down(ops)
      ensures HeldOrLost(TapHold.Arrivals(input + [e]), key, lost)
    {
      OwnAsArrived(TapHold.Line(s), TapHold.Arrivals(input), e, key, lost);
    }
  }

  lemma {:induction false} PairedOverflow(log: seq<TapHold.Out>, lost: seq<Event>)
    requires TapHoldPairs.Paired(log)
    ensures TapHoldPairs.Paired(log + [TapHold.Overflow(lost)])
    ensures TapHoldPairs.DownIn(log + [TapHold.Overflow(lost)]) == TapHoldPairs.DownIn(log)
  {
    assert (log + [TapHold.Overflow(lost)])[..|log|] == log;
  }

  /** A key that is down was last delivered as a press, so a later release of it was lost. */
  lemma {:induction false} LastIsLost(log: seq<TapHold.Out>, key: KeyPos, lost: seq<Event>)
    requires TapHoldPairs.Paired(log) && key in TapHoldPairs.DownIn(log)
    ensures HeldOrLost(TapHold.Delivered(log) + lost, key, lost)
  {
    var c := TapHoldOrder.OfKey(key);
    TapHoldRelease.DownWasPressed(log, key);
    TapHoldOrder.SelectConcat(c, TapHold.Delivered(log), lost);
    SelectedIn(c, lost);
  }

  lemma {:induction false} SelectedIn(c: TapHoldOrder.Channel, es: seq<Event>)
    ensures forall x :: x in TapHoldOrder.Select(c, es) ==> x in es
  {
    if es != [] {
      SelectedIn(c, es[..|es| - 1]);
    }
  }
}
