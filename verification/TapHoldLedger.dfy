/**
 * Conservation in the tap/hold resolver: every event that arrives is delivered
 * exactly once, is still waiting, or was dropped by an overflow.
 */
module TapHoldLedger {
  import opened KeyEvents
  import opened Actions
  import opened TapHold

  // ---------------------------------------------------------------- invariant

  /** A record as it may arrive or wait: presses carry no tap information yet. */
  predicate IsFresh(r: Record) { r.event.pressed ==> r.tap.count == 0 }

  predicate Inv(s: State) {
    && |s.ring| < WAITING_BUFFER_SIZE
    && (forall i :: 0 <= i < |s.ring| ==> !s.ring[i].event.IsTick() && IsFresh(s.ring[i]))
    && (IsIdle(s) ==> s.tapping == NO_RECORD)
    && (!IsIdle(s) && !s.tapping.event.pressed ==> s.tapping.tap.count > 0)
  }

  lemma {:induction false} ScanKeepsInv(cfg: Config, s: State)
    requires Inv(s)
    ensures Inv(ScanTap(cfg, s)) && |ScanTap(cfg, s).ring| == |s.ring|
  {
  }

  lemma {:induction false} StepKeepsInv(cfg: Config, s: State, r: Record)
    requires Inv(s) && IsFresh(r)
    ensures Inv(Step(cfg, s, r).state)
    ensures Step(cfg, s, r).record.event == r.event
    ensures !Step(cfg, s, r).consumed ==> IsFresh(Step(cfg, s, r).record)
  {
    if r.event.pressed && !r.event.IsTick() {
      ScanKeepsInv(cfg, s.(tapping := r));
      var log := if s.tapping.tap.count > 1
                 then s.log + [Synthetic(SyntheticRelease(s.tapping, r.event.time))] else s.log;
      ScanKeepsInv(cfg, State(r, s.ring, log));
    }
  }

  lemma {:induction false} DrainKeepsInv(cfg: Config, s: State)
    requires Inv(s)
    ensures Inv(Drain(cfg, s))
    decreases |s.ring|
  {
    if s.ring != [] {
      StepKeepsInv(cfg, s, s.ring[0]);
      var res := Step(cfg, s, s.ring[0]);
      if res.consumed {
        DrainKeepsInv(cfg, Advance(res));
      }
    }
  }

  lemma {:induction false} ProcessKeepsInv(cfg: Config, s: State, r: Record)
    requires Inv(s) && IsFresh(r)
    ensures Inv(Admit(cfg, s, r)) && Inv(Process(cfg, s, r))
  {
    StepKeepsInv(cfg, s, r);
    DrainKeepsInv(cfg, Admit(cfg, s, r));
  }

  // ---------------------------------------------------------------- the ledger of one step

  lemma {:induction false} LogGrows(log: seq<Out>, o: Out)
    ensures Delivered(log + [o]) == Delivered(log) + (if o.Handed? || o.LetThrough? then [o.record.event] else [])
    ensures Lost(log + [o]) == Lost(log) + (if o.Overflow? then o.lost else [])
  {
    assert (log + [o])[..|log|] == log;
  }

  /** A tapping key that just started is either still undecided or delivered. */
  lemma {:induction false} ScanLedger(cfg: Config, s: State)
    requires IsUndecided(s)
    ensures var s' := ScanTap(cfg, s);
      && (if IsUndecided(s') then s' == s
          else Delivered(s'.log) == Delivered(s.log) + [s.tapping.event])
      && Events(s'.ring) == Events(s.ring) && Lost(s'.log) == Lost(s.log)
  {
    LogGrows(s.log, Handed(SetTapCount(s.tapping, 1)));
  }

  /**
   * Either nothing was undecided and the record is delivered or becomes the
   * undecided key, or the record is to be stored and the undecided key stays or
   * is delivered.  In all cases the key and the record keep their order.
   */
  predicate Balanced(s: State, r: Record, res: StepResult) {
    && Events(res.state.ring) == Events(s.ring) && Lost(res.state.log) == Lost(s.log)
    && var d, u, d', u' := Delivered(s.log), Undecided(s), Delivered(res.state.log), Undecided(res.state);
       if res.consumed
       then u == [] && ((d' == d && u' == [r.event]) || (d' == d + [r.event] && u' == []))
       else (d' == d && u' == u) || (d' == d + u && u' == [])
  }

  /** A release went past the undecided key, which keeps waiting. */
  predicate Overtook(s: State, r: Record, res: StepResult) {
    && res.consumed && Undecided(res.state) == Undecided(s)
    && res.state.ring == s.ring && Lost(res.state.log) == Lost(s.log)
    && Delivered(res.state.log) == Delivered(s.log) + [r.event]
  }

  lemma {:induction false} UndecidedLedger(cfg: Config, s: State, r: Record)
    requires IsUndecided(s) && !r.event.IsTick() && WithinTappingTerm(cfg, s, r.event)
    ensures var res := StepUndecided(cfg, s, r);
      if LetsThrough(cfg, s, r) then Overtook(s, r, res) else Balanced(s, r, res)
  {
    var res := StepUndecided(cfg, s, r);
    if LetsThrough(cfg, s, r) {
      LogGrows(s.log, LetThrough(r));
    } else if res.state.log != s.log {
      var t := res.state.log[|s.log|].record;
      assert t.event == s.tapping.event && res.state.log == s.log + [Handed(t)];
      LogGrows(s.log, Handed(t));
    }
  }

  lemma {:induction false} TappedLedger(cfg: Config, s: State, r: Record, inTerm: bool)
    requires !IsUndecided(s) && IsFresh(r) && !r.event.IsTick()
    ensures Balanced(s, r, StepTapped(cfg, s, r, inTerm))
  {
    if IsTappingRelease(s, r) {
      LogGrows(s.log, Handed(r.(tap := s.tapping.tap)));
    } else if IsTapRecord(cfg, s, r) && r.event.pressed {
      var o := Synthetic(SyntheticRelease(s.tapping, r.event.time));
      LogGrows(s.log, o);
      ScanLedger(cfg, State(r, s.ring, if s.tapping.tap.count > 1 then s.log + [o] else s.log));
    } else {
      LogGrows(s.log, Handed(r));
    }
  }

  lemma {:induction false} ReleasedLedger(cfg: Config, s: State, r: Record)
    requires !IsUndecided(s) && !s.tapping.event.pressed && IsFresh(r) && !r.event.IsTick()
    ensures Balanced(s, r, StepReleased(cfg, s, r))
  {
    var res := StepReleased(cfg, s, r);
    if r.event.pressed && s.tapping.event.key != r.event.key && IsTapRecord(cfg, s, r) {
      ScanLedger(cfg, s.(tapping := r));
    } else if res.state.log != s.log {
      assert res.state.log == s.log + [Handed(res.record)];
      LogGrows(s.log, Handed(res.record));
    }
  }

  /** The heart of conservation and order: what one step does with one record. */
  lemma {:induction false} StepLedger(cfg: Config, s: State, r: Record)
    requires IsFresh(r) && !r.event.IsTick()
    ensures var res := Step(cfg, s, r);
      if LetsThrough(cfg, s, r) then Overtook(s, r, res) else Balanced(s, r, res)
  {
    if IsIdle(s) {
      LogGrows(s.log, Handed(r));
      if r.event.pressed {
        ScanLedger(cfg, s.(tapping := r));
      }
    } else if s.tapping.event.pressed {
      LogGrows(s.log, Handed(s.tapping));
      if s.tapping.tap.count > 0 {
        TappedLedger(cfg, s, r, WithinTappingTerm(cfg, s, r.event));
      } else if WithinTappingTerm(cfg, s, r.event) {
        UndecidedLedger(cfg, s, r);
      }
    } else if WithinTappingTerm(cfg, s, r.event) {
      ReleasedLedger(cfg, s, r);
    }
  }

  lemma {:induction false} TickLedger(cfg: Config, s: State, r: Record)
    requires r.event.IsTick()
    ensures var res := Step(cfg, s, r);
      && res.state.ring == s.ring && Lost(res.state.log) == Lost(s.log)
      && Front(res.state) == Front(s)
  {
    LogGrows(s.log, Handed(s.tapping));
  }

  // ---------------------------------------------------------------- the line after one step

  lemma {:induction false} BalancedFront(s: State, r: Record, res: StepResult)
    requires Balanced(s, r, res)
    ensures Front(res.state) == if res.consumed then Front(s) + [r.event] else Front(s)
  {
  }

  lemma {:induction false} AdvanceRing(s: State, res: StepResult)
    requires s.ring != [] && Events(res.state.ring) == Events(s.ring)
    requires res.record.event == s.ring[0].event
    ensures Front(Advance(res)) == Front(res.state)
    ensures var es := Events(Advance(res).ring);
      Events(s.ring) == if res.consumed then [s.ring[0].event] + es else es
  {
  }

  lemma {:induction false} BalancedAdvance(s: State, res: StepResult)
    requires s.ring != [] && res.state.ring != [] && Balanced(s, s.ring[0], res)
    requires res.record.event == s.ring[0].event
    ensures Line(Advance(res)) == Line(s) && Lost(Advance(res).log) == Lost(s.log)
  {
    BalancedFront(s, s.ring[0], res);
    AdvanceRing(s, res);
    var es := Events(Advance(res).ring);
    if res.consumed {
      assert Front(s) + [s.ring[0].event] + es == Front(s) + ([s.ring[0].event] + es);
    }
  }

  lemma {:induction false} OvertookAdvance(s: State, res: StepResult)
    requires s.ring != [] && Overtook(s, s.ring[0], res)
    ensures Lost(Advance(res).log) == Lost(s.log)
    ensures var d, r, u, rest := Delivered(s.log), s.ring[0].event, Undecided(s), Events(s.ring[1..]);
      Line(s) == d + (u + [r]) + rest && Line(Advance(res)) == d + ([r] + u) + rest
  {
    assert Events(s.ring) == [s.ring[0].event] + Events(s.ring[1..]);
  }

  /** The ring is full and the record was not consumed: everything waiting is dropped. */
  predicate Overflows(res: StepResult) {
    !res.consumed && !res.record.event.IsTick() && |res.state.ring| + 1 >= WAITING_BUFFER_SIZE
  }

  /** A consumed record stands ahead of the ring; a stored one stands last. */
  lemma {:induction false} BalancedStore(s: State, r: Record, res: StepResult)
    requires Balanced(s, r, res) && res.record.event == r.event && !r.event.IsTick()
    requires !Overflows(res)
    ensures Lost(Store(res).log) == Lost(s.log)
    ensures Line(Store(res)) == Front(s)
              + (if res.consumed then [r.event] + Events(s.ring) else Events(s.ring) + [r.event])
  {
    assert Front(Store(res)) == Front(res.state);
    BalancedFront(s, r, res);
    if !res.consumed {
      assert Events(Store(res).ring) == Events(s.ring) + [r.event];
    }
  }

  lemma {:induction false} OvertookStore(s: State, r: Record, res: StepResult)
    requires Overtook(s, r, res)
    ensures Lost(Store(res).log) == Lost(s.log)
    ensures Line(Store(res)) == Delivered(s.log) + [r.event] + Undecided(s) + Events(s.ring)
  {
  }

  lemma {:induction false} OverflowStore(s: State, r: Record, res: StepResult)
    requires Balanced(s, r, res) && res.record.event == r.event && Overflows(res)
    ensures multiset(Line(Store(res))) + multiset(Lost(Store(res).log))
            == multiset(Line(s)) + multiset(Lost(s.log)) + multiset{r.event}
  {
    var d', u', es, lost := Delivered(res.state.log), Undecided(res.state), Events(s.ring), Lost(s.log);
    BalancedFront(s, r, res);
    LogGrows(res.state.log, Overflow(Pending(res.state) + [r.event]));
    assert Line(Store(res)) == d';
    assert Lost(Store(res).log) == lost + (u' + es + [r.event]);
    SplitAtOverflow(d', u', es, lost, r.event);
  }

  lemma {:induction false} SplitAtOverflow(d: seq<Event>, u: seq<Event>, es: seq<Event>, lost: seq<Event>, e: Event)
    ensures multiset(d) + multiset(lost + (u + es + [e])) == multiset(d + u + es) + multiset(lost) + multiset{e}
  {
  }

  // ---------------------------------------------------------------- conservation

  /** Draining neither loses nor invents an event. */
  lemma {:induction false} DrainConserves(cfg: Config, s: State)
    requires Inv(s)
    ensures multiset(Line(Drain(cfg, s))) == multiset(Line(s))
    ensures Lost(Drain(cfg, s).log) == Lost(s.log)
    decreases |s.ring|
  {
    if s.ring != [] {
      StepLedger(cfg, s, s.ring[0]);
      StepKeepsInv(cfg, s, s.ring[0]);
      var res := Step(cfg, s, s.ring[0]);
      AdvanceConserves(s, res);
      if res.consumed {
        DrainConserves(cfg, Advance(res));
      }
    }
  }

  lemma {:induction false} AdvanceConserves(s: State, res: StepResult)
    requires s.ring != [] && res.state.ring != [] && res.record.event == s.ring[0].event
    requires Overtook(s, s.ring[0], res) || Balanced(s, s.ring[0], res)
    ensures multiset(Line(Advance(res))) == multiset(Line(s)) && Lost(Advance(res).log) == Lost(s.log)
  {
    if Balanced(s, s.ring[0], res) {
      BalancedAdvance(s, res);
    } else {
      OvertookAdvance(s, res);
    }
  }

  lemma {:induction false} StoreConserves(s: State, r: Record, res: StepResult)
    requires !r.event.IsTick() && res.record.event == r.event
    requires Overtook(s, r, res) || Balanced(s, r, res)
    ensures multiset(Line(Store(res))) + multiset(Lost(Store(res).log))
            == multiset(Line(s)) + multiset(Lost(s.log)) + multiset{r.event}
  {
    if Overflows(res) {
      OverflowStore(s, r, res);
    } else if Balanced(s, r, res) {
      BalancedStore(s, r, res);
    } else {
      OvertookStore(s, r, res);
    }
  }

  lemma {:induction false} AdmitConserves(cfg: Config, s: State, r: Record)
    requires Inv(s) && IsFresh(r)
    ensures var s' := Admit(cfg, s, r);
      multiset(Line(s')) + multiset(Lost(s'.log))
      == multiset(Line(s)) + multiset(Lost(s.log)) + multiset(IfEvent(r.event))
  {
    StepKeepsInv(cfg, s, r);
    if r.event.IsTick() {
      TickLedger(cfg, s, r);
    } else {
      StepLedger(cfg, s, r);
      StoreConserves(s, r, Step(cfg, s, r));
    }
  }

  /** One call moves exactly the offered event into the accounts. */
  lemma {:induction false} ProcessConserves(cfg: Config, s: State, r: Record)
    requires Inv(s) && IsFresh(r)
    ensures var s' := Process(cfg, s, r);
      multiset(Line(s')) + multiset(Lost(s'.log))
      == multiset(Line(s)) + multiset(Lost(s.log)) + multiset(IfEvent(r.event))
  {
    ProcessKeepsInv(cfg, s, r);
    AdmitConserves(cfg, s, r);
    DrainConserves(cfg, Admit(cfg, s, r));
  }

  lemma {:induction false} RunKeepsInv(cfg: Config, input: seq<Event>)
    ensures Inv(Run(cfg, INITIAL, input))
  {
    if input != [] {
      RunKeepsInv(cfg, input[..|input| - 1]);
      ProcessKeepsInv(cfg, Run(cfg, INITIAL, input[..|input| - 1]), Record(input[|input| - 1], NO_TAP));
    }
  }

  /**
   * Conservation over every run: each event that arrived is delivered exactly
   * once, or still waiting, or was dropped by an overflow.
   */
  lemma {:induction false} RunConserves(cfg: Config, input: seq<Event>)
    ensures var s := Run(cfg, INITIAL, input);
      multiset(Delivered(s.log)) + multiset(Pending(s)) + multiset(Lost(s.log)) == multiset(Arrivals(input))
  {
    var s := Run(cfg, INITIAL, input);
    if input != [] {
      var before := input[..|input| - 1];
      RunConserves(cfg, before);
      RunKeepsInv(cfg, before);
      ProcessConserves(cfg, Run(cfg, INITIAL, before), Record(input[|input| - 1], NO_TAP));
    }
    assert multiset(Line(s)) == multiset(Delivered(s.log)) + multiset(Pending(s));
  }

  // ---------------------------------------------------------------- synthetic releases

  /** A made-up release ends a repeated tap that was handed on before it. */
  predicate EndsATap(log: seq<Out>, i: nat)
    requires i < |log|
  {
    log[i].Synthetic? ==>
      exists j :: 0 <= j < i && log[j].Handed? && log[j].record.event.pressed && log[j].record.tap.count > 1
                  && log[i].record == SyntheticRelease(log[j].record, log[i].record.event.time)
  }

  predicate SyntheticsEndTaps(log: seq<Out>) {
    forall i :: 0 <= i < |log| ==> EndsATap(log, i)
  }

  /** A tapping key that counts as a tap was handed on exactly as it stands. */
  predicate TappingIsLogged(s: State) {
    !IsIdle(s) && s.tapping.event.pressed && s.tapping.tap.count > 0 ==> Handed(s.tapping) in s.log
  }

  lemma {:induction false} LogExtends(log: seq<Out>, o: Out)
    requires SyntheticsEndTaps(log)
    requires o.Synthetic? ==> exists p :: Handed(p) in log && p.event.pressed && p.tap.count > 1
                                          && o.record == SyntheticRelease(p, o.record.event.time)
    ensures SyntheticsEndTaps(log + [o])
  {
    var log' := log + [o];
    forall i | 0 <= i < |log'|
      ensures EndsATap(log', i)
    {
      if i < |log| {
        assert EndsATap(log, i);
        if log[i].Synthetic? {
          var j :| 0 <= j < i && log[j].Handed? && log[j].record.event.pressed && log[j].record.tap.count > 1
                   && log[i].record == SyntheticRelease(log[j].record, log[i].record.event.time);
          assert log'[j] == log[j];
        }
      } else if o.Synthetic? {
        var p :| Handed(p) in log && p.event.pressed && p.tap.count > 1
                 && o.record == SyntheticRelease(p, o.record.event.time);
        var j :| 0 <= j < |log| && log[j] == Handed(p);
        assert log'[j] == Handed(p);
      }
    }
  }

  predicate SyntheticsInv(s: State) { SyntheticsEndTaps(s.log) && TappingIsLogged(s) }

  lemma {:induction false} ScanSynthetics(cfg: Config, s: State)
    requires SyntheticsEndTaps(s.log) && s.tapping.tap.count == 0
    ensures SyntheticsInv(ScanTap(cfg, s))
  {
    LogExtends(s.log, Handed(SetTapCount(s.tapping, 1)));
  }

  lemma {:induction false} TappedSynthetics(cfg: Config, s: State, r: Record, inTerm: bool)
    requires SyntheticsInv(s) && !IsIdle(s) && s.tapping.event.pressed && s.tapping.tap.count > 0 && IsFresh(r)
    ensures SyntheticsInv(StepTapped(cfg, s, r, inTerm).state)
  {
    if IsTappingRelease(s, r) {
      LogExtends(s.log, Handed(r.(tap := s.tapping.tap)));
    } else if IsTapRecord(cfg, s, r) && r.event.pressed {
      if s.tapping.tap.count > 1 {
        var o := Synthetic(SyntheticRelease(s.tapping, r.event.time));
        LogExtends(s.log, o);
        ScanSynthetics(cfg, State(r, s.ring, s.log + [o]));
      } else {
        ScanSynthetics(cfg, State(r, s.ring, s.log));
      }
    } else {
      LogExtends(s.log, Handed(r));
    }
  }

  lemma {:induction false} StepSynthetics(cfg: Config, s: State, r: Record)
    requires SyntheticsInv(s) && IsFresh(r)
    ensures SyntheticsInv(Step(cfg, s, r).state)
  {
    var res := Step(cfg, s, r);
    if !IsIdle(s) && s.tapping.event.pressed && s.tapping.tap.count > 0 {
      TappedSynthetics(cfg, s, r, WithinTappingTerm(cfg, s, r.event));
    } else {
      if r.event.pressed {
        ScanSynthetics(cfg, s.(tapping := r));
      }
      if |res.state.log| == |s.log| + 1 && !res.state.log[|s.log|].Synthetic? {
        LogExtends(s.log, res.state.log[|s.log|]);
        assert res.state.log == s.log + [res.state.log[|s.log|]];
      }
    }
  }

  lemma {:induction false} DrainSynthetics(cfg: Config, s: State)
    requires Inv(s) && SyntheticsInv(s)
    ensures SyntheticsInv(Drain(cfg, s))
    decreases |s.ring|
  {
    if s.ring != [] {
      StepSynthetics(cfg, s, s.ring[0]);
      StepKeepsInv(cfg, s, s.ring[0]);
      if Step(cfg, s, s.ring[0]).consumed {
        DrainSynthetics(cfg, Advance(Step(cfg, s, s.ring[0])));
      }
    }
  }

  lemma {:induction false} StoreSynthetics(res: StepResult)
    requires SyntheticsInv(res.state)
    ensures SyntheticsInv(Store(res))
  {
    LogExtends(res.state.log, Overflow(Pending(res.state) + [res.record.event]));
  }

  /** In every run the only records made up by the resolver end repeated taps. */
  lemma {:induction false} RunSynthetics(cfg: Config, input: seq<Event>)
    ensures SyntheticsInv(Run(cfg, INITIAL, input))
  {
    if input != [] {
      var before, r := input[..|input| - 1], Record(input[|input| - 1], NO_TAP);
      var s := Run(cfg, INITIAL, before);
      RunSynthetics(cfg, before);
      RunKeepsInv(cfg, before);
      StepSynthetics(cfg, s, r);
      StoreSynthetics(Step(cfg, s, r));
      ProcessKeepsInv(cfg, s, r);
      DrainSynthetics(cfg, Admit(cfg, s, r));
    }
  }
}
