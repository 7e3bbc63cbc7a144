/**
 * Order in the tap/hold resolver: as long as a condition on the entry state holds,
 * everything is delivered in the order it arrived, but for the releases let past an
 * undecided key; and these stay in order with the events of their own key.  Outside
 * that condition the order does break.
 */
module TapHoldOrder {
  import opened KeyEvents
  import opened Actions
  import opened TapHold
  import opened TapHoldLedger

  /** The sub-streams whose order matters: everything that is not moved, or all events of one key. */
  datatype Channel = Except(moved: set<Event>) | OfKey(key: KeyPos)

  predicate On(c: Channel, e: Event) {
    match c
    case Except(moved) => e !in moved
    case OfKey(key) => e.key == key
  }

  /** The releases that were let past an undecided key. */
  function Moved(log: seq<Out>): set<Event> {
    set i | 0 <= i < |log| && log[i].LetThrough? :: log[i].record.event
  }

  /** A channel that leaves out whatever was let through. */
  predicate LeavesOut(c: Channel, log: seq<Out>) { c.Except? ==> Moved(log) <= c.moved }

  lemma {:induction false} LeavesOutBefore(c: Channel, log: seq<Out>, log': seq<Out>)
    requires log <= log' && LeavesOut(c, log')
    ensures LeavesOut(c, log)
  {
    if c.Except? {
      forall e | e in Moved(log)
        ensures e in Moved(log')
      {
        var i :| 0 <= i < |log| && log[i].LetThrough? && log[i].record.event == e;
        assert log'[i] == log[i];
      }
    }
  }

  lemma {:induction false} MovedIsLeftOut(c: Channel, log: seq<Out>, r: Record)
    requires LetThrough(r) in log && LeavesOut(c, log) && c.Except?
    ensures !On(c, r.event)
  {
    var i :| 0 <= i < |log| && log[i] == LetThrough(r);
    assert log[i].record.event in Moved(log);
  }

  function Select(c: Channel, es: seq<Event>): seq<Event> {
    if es == [] then []
    else
      var e := es[|es| - 1];
      Select(c, es[..|es| - 1]) + (if On(c, e) then [e] else [])
  }

  lemma {:induction false} SelectConcat(c: Channel, a: seq<Event>, b: seq<Event>)
    ensures Select(c, a + b) == Select(c, a) + Select(c, b)
  {
    if b == [] {
      assert a + b == a;
    } else {
      assert (a + b)[..|a + b| - 1] == a + b[..|b| - 1];
      SelectConcat(c, a, b[..|b| - 1]);
    }
  }

  lemma {:induction false} SelectNone(c: Channel, es: seq<Event>)
    requires forall i :: 0 <= i < |es| ==> !On(c, es[i])
    ensures Select(c, es) == []
  {
    if es != [] {
      SelectNone(c, es[..|es| - 1]);
    }
  }

  /** The last selected event is an event of the sequence. */
  lemma {:induction false} SelectLast(c: Channel, es: seq<Event>, i: nat)
    requires i < |es| && On(c, es[i])
    ensures Select(c, es) != []
    ensures exists j :: 0 <= j < |es| && On(c, es[j]) && es[j] == Select(c, es)[|Select(c, es)| - 1]
  {
    var n := |es| - 1;
    if !On(c, es[n]) {
      SelectLast(c, es[..n], i);
      assert Select(c, es) == Select(c, es[..n]);
    }
  }

  /** Two neighbouring blocks may change places on a channel that carries only one of them. */
  lemma {:induction false} SelectSwap(c: Channel, a: seq<Event>, x: seq<Event>, y: seq<Event>, b: seq<Event>)
    requires Select(c, x) == [] || Select(c, y) == []
    ensures Select(c, a + (x + y) + b) == Select(c, a + (y + x) + b)
  {
    SelectConcat(c, x, y);
    SelectConcat(c, y, x);
    SelectConcat(c, a, x + y);
    SelectConcat(c, a, y + x);
    SelectConcat(c, a + (x + y), b);
    SelectConcat(c, a + (y + x), b);
  }

  // ---------------------------------------------------------------- the log only grows

  lemma {:induction false} StepLogGrows(cfg: Config, s: State, r: Record)
    ensures s.log <= Step(cfg, s, r).state.log
    ensures LetsThrough(cfg, s, r) ==> LetThrough(r) in Step(cfg, s, r).state.log
  {
    assert LetsThrough(cfg, s, r) ==> (s.log + [LetThrough(r)])[|s.log|] == LetThrough(r);
  }

  lemma {:induction false} DrainLogGrows(cfg: Config, s: State)
    ensures s.log <= Drain(cfg, s).log
    decreases |s.ring|
  {
    if s.ring != [] {
      StepLogGrows(cfg, s, s.ring[0]);
      var res := Step(cfg, s, s.ring[0]);
      if res.consumed {
        DrainLogGrows(cfg, Advance(res));
      }
    }
  }

  lemma {:induction false} ProcessLogGrows(cfg: Config, s: State, r: Record)
    ensures s.log <= Step(cfg, s, r).state.log <= Admit(cfg, s, r).log <= Process(cfg, s, r).log
  {
    StepLogGrows(cfg, s, r);
    DrainLogGrows(cfg, Admit(cfg, s, r));
  }

  // ---------------------------------------------------------------- draining

  lemma {:induction false} AdvanceOrder(c: Channel, s: State, res: StepResult)
    requires s.ring != [] && res.state.ring != [] && res.record.event == s.ring[0].event
    requires Balanced(s, s.ring[0], res)
             || (Overtook(s, s.ring[0], res) && IsUndecided(s)
                 && !s.ring[0].event.pressed && s.ring[0].event.key != s.tapping.event.key
                 && (c.Except? ==> !On(c, s.ring[0].event)))
    ensures Select(c, Line(Advance(res))) == Select(c, Line(s))
  {
    if Balanced(s, s.ring[0], res) {
      BalancedAdvance(s, res);
    } else {
      OvertookAdvance(s, res);
      var t, r := s.tapping.event, s.ring[0].event;
      if On(c, t) {
        SelectNone(c, [r]);
      } else {
        SelectNone(c, [t]);
      }
      SelectSwap(c, Delivered(s.log), Undecided(s), [r], Events(s.ring[1..]));
    }
  }

  /** Draining keeps the order on every channel. */
  lemma {:induction false} DrainOrder(cfg: Config, c: Channel, s: State)
    requires Inv(s) && LeavesOut(c, Drain(cfg, s).log)
    ensures Select(c, Line(Drain(cfg, s))) == Select(c, Line(s))
    decreases |s.ring|
  {
    if s.ring != [] {
      StepLedger(cfg, s, s.ring[0]);
      StepKeepsInv(cfg, s, s.ring[0]);
      var res := Step(cfg, s, s.ring[0]);
      if res.consumed {
        DrainLogGrows(cfg, Advance(res));
        DrainOrder(cfg, c, Advance(res));
      }
      LeavesOutBefore(c, Advance(res).log, Drain(cfg, s).log);
      StepLeftOut(cfg, c, s, s.ring[0]);
      AdvanceOrder(c, s, res);
    }
  }

  lemma {:induction false} StepLeftOut(cfg: Config, c: Channel, s: State, r: Record)
    requires LeavesOut(c, Step(cfg, s, r).state.log)
    ensures LetsThrough(cfg, s, r) && c.Except? ==> !On(c, r.event)
  {
    StepLogGrows(cfg, s, r);
    if LetsThrough(cfg, s, r) && c.Except? {
      MovedIsLeftOut(c, Step(cfg, s, r).state.log, r);
    }
  }

  // ---------------------------------------------------------------- admission

  /**
   * The entry condition under which an incoming event cannot get ahead of the
   * ring: the ring is empty, the tapping key is undecided, or the tapping key was
   * released longer ago than the tapping term.
   */
  predicate KeepsTurn(cfg: Config, s: State, e: Event) {
    || s.ring == []
    || IsUndecided(s)
    || (!IsIdle(s) && !s.tapping.event.pressed && !WithinTappingTerm(cfg, s, e))
  }

  lemma {:induction false} ConsumedExactlyWhen(cfg: Config, s: State, r: Record)
    requires !r.event.IsTick() && !LetsThrough(cfg, s, r) && s.ring != []
    ensures Step(cfg, s, r).consumed <==> !KeepsTurn(cfg, s, r.event)
  {
  }

  lemma {:induction false} AheadIsNotLast(front: seq<Event>, e: Event, es: seq<Event>)
    requires e !in es
    ensures front + ([e] + es) == front + es + [e] <==> es == []
  {
    if es != [] {
      assert (front + ([e] + es))[|front|] == e;
      assert (front + es + [e])[|front|] == es[0];
    } else {
      assert front + ([e] + es) == front + es + [e];
    }
  }

  lemma {:induction false} InTurn(s: State, r: Record, res: StepResult)
    requires Balanced(s, r, res) && res.record.event == r.event && !r.event.IsTick() && !Overflows(res)
    requires s.ring == [] || !res.consumed
    ensures Line(Store(res)) == Line(s) + [r.event]
  {
    BalancedStore(s, r, res);
    if s.ring == [] {
      assert [r.event] + Events(s.ring) == Events(s.ring) + [r.event];
    }
    assert Front(s) + (Events(s.ring) + [r.event]) == Line(s) + [r.event];
  }

  lemma {:induction false} OutOfTurn(s: State, r: Record, res: StepResult)
    requires Balanced(s, r, res) && res.record.event == r.event && !r.event.IsTick()
    requires s.ring != [] && res.consumed && r.event !in Events(s.ring)
    ensures Line(Store(res)) == Front(s) + ([r.event] + Events(s.ring)) != Line(s) + [r.event]
  {
    BalancedStore(s, r, res);
    AheadIsNotLast(Front(s), r.event, Events(s.ring));
  }

  /**
   * An incoming event that is not let through joins the end of the line if and
   * only if the entry condition holds; otherwise it goes ahead of the ring.
   */
  lemma {:induction false} JoinsEndOfLine(cfg: Config, s: State, r: Record)
    requires Inv(s) && IsFresh(r) && !r.event.IsTick() && !LetsThrough(cfg, s, r)
    requires !Overflows(Step(cfg, s, r))
    requires r.event !in Events(s.ring)
    ensures KeepsTurn(cfg, s, r.event) <==> Line(Admit(cfg, s, r)) == Line(s) + [r.event]
    ensures !KeepsTurn(cfg, s, r.event) ==>
              Line(Admit(cfg, s, r)) == Front(s) + ([r.event] + Events(s.ring))
  {
    StepLedger(cfg, s, r);
    StepKeepsInv(cfg, s, r);
    if s.ring != [] {
      ConsumedExactlyWhen(cfg, s, r);
    }
    if KeepsTurn(cfg, s, r.event) {
      InTurn(s, r, Step(cfg, s, r));
    } else {
      OutOfTurn(s, r, Step(cfg, s, r));
    }
  }

  // ---------------------------------------------------------------- one call

  /** The last event of this key so far, if any, was the opposite one. */
  predicate Alternates(es: seq<Event>, e: Event) {
    var own := Select(OfKey(e.key), es);
    own == [] || own[|own| - 1].pressed != e.pressed
  }

  /** When events alternate, a release that is let through passes no event of its own key. */
  lemma {:induction false} NothingOfItsOwn(s: State, r: Record)
    requires !Typed(s.ring, r.event) && Alternates(Line(s), r.event)
    ensures Select(OfKey(r.event.key), Events(s.ring)) == []
  {
    var c, es := OfKey(r.event.key), Events(s.ring);
    SelectConcat(c, Front(s), es);
    if i :| 0 <= i < |es| && On(c, es[i]) {
      SelectLast(c, es, i);
      assert false;
    } else {
      SelectNone(c, es);
    }
  }

  lemma {:induction false} SelectFour(c: Channel, a: seq<Event>, b: seq<Event>, x: seq<Event>, y: seq<Event>)
    ensures Select(c, a + b + x + y) == Select(c, a) + Select(c, b) + Select(c, x) + Select(c, y)
  {
    SelectConcat(c, a + b + x, y);
    SelectConcat(c, a + b, x);
    SelectConcat(c, a, b);
  }

  lemma {:induction false} Rotate<T>(d: seq<T>, u: seq<T>, es: seq<T>, e: seq<T>)
    requires e == [] || (u == [] && es == [])
    ensures d + e + u + es == d + u + es + e
  {
  }

  /** An event may go to the front of blocks that carry nothing on its channel. */
  lemma {:induction false} SelectToFront(c: Channel, d: seq<Event>, u: seq<Event>, es: seq<Event>, e: Event)
    requires On(c, e) ==> Select(c, u) == [] && Select(c, es) == []
    ensures Select(c, d + [e] + u + es) == Select(c, d + u + es + [e])
  {
    SelectFour(c, d, [e], u, es);
    SelectFour(c, d, u, es, [e]);
    if !On(c, e) {
      SelectNone(c, [e]);
    }
    Rotate(Select(c, d), Select(c, u), Select(c, es), Select(c, [e]));
  }

  lemma {:induction false} OvertookOrder(c: Channel, s: State, r: Record, res: StepResult)
    requires Overtook(s, r, res) && IsUndecided(s)
    requires !r.event.pressed && r.event.key != s.tapping.event.key
    requires !Typed(s.ring, r.event) && (c.Except? ==> !On(c, r.event))
    requires c.OfKey? ==> Alternates(Line(s), r.event)
    ensures Select(c, Line(Store(res))) == Select(c, Line(s) + [r.event])
  {
    OvertookStore(s, r, res);
    if On(c, r.event) {
      NothingOfItsOwn(s, r);
      SelectNone(c, [s.tapping.event]);
    }
    SelectToFront(c, Delivered(s.log), Undecided(s), Events(s.ring), r.event);
  }

  /**
   * A call entered under the condition keeps the order of everything but the releases
   * that are let through; and of these, when keys alternate, among the events of their
   * own key.
   */
  lemma {:induction false} ProcessOrder(cfg: Config, c: Channel, s: State, r: Record)
    requires Inv(s) && IsFresh(r)
    requires r.event.IsTick() || KeepsTurn(cfg, s, r.event)
    requires c.OfKey? && !r.event.IsTick() ==> Alternates(Line(s), r.event)
    requires !Overflows(Step(cfg, s, r)) && LeavesOut(c, Process(cfg, s, r).log)
    ensures Select(c, Line(Process(cfg, s, r))) == Select(c, Line(s) + IfEvent(r.event))
  {
    ProcessKeepsInv(cfg, s, r);
    ProcessLogGrows(cfg, s, r);
    LeavesOutBefore(c, Admit(cfg, s, r).log, Process(cfg, s, r).log);
    DrainOrder(cfg, c, Admit(cfg, s, r));
    AdmitOrder(cfg, c, s, r);
  }

  lemma {:induction false} AdmitOrder(cfg: Config, c: Channel, s: State, r: Record)
    requires Inv(s) && IsFresh(r)
    requires r.event.IsTick() || KeepsTurn(cfg, s, r.event)
    requires c.OfKey? && !r.event.IsTick() ==> Alternates(Line(s), r.event)
    requires !Overflows(Step(cfg, s, r)) && LeavesOut(c, Admit(cfg, s, r).log)
    ensures Select(c, Line(Admit(cfg, s, r))) == Select(c, Line(s) + IfEvent(r.event))
  {
    var res := Step(cfg, s, r);
    StepKeepsInv(cfg, s, r);
    if r.event.IsTick() {
      TickLedger(cfg, s, r);
      assert Line(s) + [] == Line(s);
    } else {
      StepLedger(cfg, s, r);
      if LetsThrough(cfg, s, r) {
        StepLeftOut(cfg, c, s, r);
        OvertookOrder(c, s, r, res);
      } else {
        if s.ring != [] {
          ConsumedExactlyWhen(cfg, s, r);
        }
        InTurn(s, r, res);
      }
    }
  }

  // ---------------------------------------------------------------- whole runs

  /** Per key, the input alternates between presses and releases. */
  predicate AlternatingInput(input: seq<Event>) {
    input == [] ||
      var before, e := input[..|input| - 1], input[|input| - 1];
      AlternatingInput(before) && (e.IsTick() || Alternates(Arrivals(before), e))
  }

  /** The event arrives under the entry condition and finds room. */
  predicate ArrivesInTurn(cfg: Config, s: State, e: Event) {
    (e.IsTick() || KeepsTurn(cfg, s, e)) && !Overflows(Step(cfg, s, Record(e, NO_TAP)))
  }

  predicate Orderly(cfg: Config, input: seq<Event>) {
    input == [] ||
      var before, e := input[..|input| - 1], input[|input| - 1];
      Orderly(cfg, before) && ArrivesInTurn(cfg, Run(cfg, INITIAL, before), e)
  }

  lemma {:induction false} NextInOrder(cfg: Config, c: Channel, s: State, e: Event, arrivals: seq<Event>)
    requires Inv(s) && ArrivesInTurn(cfg, s, e) && LeavesOut(c, Process(cfg, s, Record(e, NO_TAP)).log)
    requires Select(c, Line(s)) == Select(c, arrivals)
    requires c.OfKey? && !e.IsTick() ==>
      Select(OfKey(e.key), Line(s)) == Select(OfKey(e.key), arrivals) && Alternates(arrivals, e)
    ensures Select(c, Line(Process(cfg, s, Record(e, NO_TAP)))) == Select(c, arrivals + IfEvent(e))
  {
    ProcessOrder(cfg, c, s, Record(e, NO_TAP));
    SelectConcat(c, Line(s), IfEvent(e));
    SelectConcat(c, arrivals, IfEvent(e));
  }

  /**
   * Order over whole runs: on every channel, what was delivered followed by what is
   * waiting is exactly what arrived.
   */
  lemma {:induction false} RunOrder(cfg: Config, c: Channel, input: seq<Event>)
    requires Orderly(cfg, input) && LeavesOut(c, Run(cfg, INITIAL, input).log)
    requires c.OfKey? ==> AlternatingInput(input)
    ensures Select(c, Line(Run(cfg, INITIAL, input))) == Select(c, Arrivals(input))
    decreases |input|
  {
    if input != [] {
      var before, e := input[..|input| - 1], input[|input| - 1];
      var s := Run(cfg, INITIAL, before);
      ProcessLogGrows(cfg, s, Record(e, NO_TAP));
      LeavesOutBefore(c, s.log, Run(cfg, INITIAL, input).log);
      RunOrder(cfg, c, before);
      if c.OfKey? {
        RunOrder(cfg, OfKey(e.key), before);
      }
      RunKeepsInv(cfg, before);
      NextInOrder(cfg, c, s, e, Arrivals(before));
    }
  }

  /** Each key's events stand in line as they arrived. */
  ghost predicate KeysInOrder(line: seq<Event>, arrivals: seq<Event>) {
    forall key :: Select(OfKey(key), line) == Select(OfKey(key), arrivals)
  }

  lemma {:induction false} RunKeysInOrder(cfg: Config, input: seq<Event>)
    requires AlternatingInput(input) && Orderly(cfg, input)
    ensures KeysInOrder(Line(Run(cfg, INITIAL, input)), Arrivals(input))
  {
    forall key
      ensures Select(OfKey(key), Line(Run(cfg, INITIAL, input))) == Select(OfKey(key), Arrivals(input))
    {
      RunOrder(cfg, OfKey(key), input);
    }
  }

  // ---------------------------------------------------------------- what is let through

  /** Every release let through was one that the action of its key did not hold back. */
  ghost predicate LetByRule(cfg: Config, log: seq<Out>) {
    forall i :: 0 <= i < |log| && log[i].LetThrough? ==> MayPass(cfg, log[..i], log[i].record)
  }

  predicate MayPass(cfg: Config, log: seq<Out>, r: Record) {
    !r.event.pressed && !IsRetained(cfg.actionOf(log, r.event.key), r.tap.count)
  }

  lemma {:induction false} RuleGrows(cfg: Config, log: seq<Out>, log': seq<Out>)
    requires LetByRule(cfg, log) && log <= log'
    requires forall i :: |log| <= i < |log'| && log'[i].LetThrough? ==> i == |log| && MayPass(cfg, log, log'[i].record)
    ensures LetByRule(cfg, log')
  {
    forall i | 0 <= i < |log'| && log'[i].LetThrough?
      ensures MayPass(cfg, log'[..i], log'[i].record)
    {
      if i < |log| {
        assert log'[..i] == log[..i] && log'[i] == log[i];
      } else {
        assert log'[..i] == log;
      }
    }
  }

  lemma {:induction false} StepByRule(cfg: Config, s: State, r: Record)
    requires LetByRule(cfg, s.log)
    ensures LetByRule(cfg, Step(cfg, s, r).state.log)
  {
    StepLogGrows(cfg, s, r);
    RuleGrows(cfg, s.log, Step(cfg, s, r).state.log);
  }

  lemma {:induction false} DrainByRule(cfg: Config, s: State)
    requires LetByRule(cfg, s.log)
    ensures LetByRule(cfg, Drain(cfg, s).log)
    decreases |s.ring|
  {
    if s.ring != [] {
      StepByRule(cfg, s, s.ring[0]);
      var res := Step(cfg, s, s.ring[0]);
      if res.consumed {
        DrainByRule(cfg, Advance(res));
      }
    }
  }

  /** Over every run, what is let through is releases of keys whose action does not hold them back. */
  lemma {:induction false} RunByRule(cfg: Config, input: seq<Event>)
    ensures LetByRule(cfg, Run(cfg, INITIAL, input).log)
  {
    if input != [] {
      var before, r := input[..|input| - 1], Record(input[|input| - 1], NO_TAP);
      var s := Run(cfg, INITIAL, before);
      RunByRule(cfg, before);
      StepByRule(cfg, s, r);
      RuleGrows(cfg, Step(cfg, s, r).state.log, Admit(cfg, s, r).log);
      DrainByRule(cfg, Admit(cfg, s, r));
    }
  }

  /**
   * Everything arrives in record processing in the order it was typed, in every run
   * in turn, except for the releases let through: without these, what was delivered
   * followed by what is waiting is what arrived.  In particular a release that the
   * action of its key holds back keeps its place among the presses of other keys.
   */
  lemma {:induction false} OnlyLetThroughMoves(cfg: Config, input: seq<Event>)
    requires Orderly(cfg, input)
    ensures var s := Run(cfg, INITIAL, input); var c := Except(Moved(s.log));
      Select(c, Line(s)) == Select(c, Arrivals(input)) && LetByRule(cfg, s.log)
  {
    RunByRule(cfg, input);
    RunOrder(cfg, Except(Moved(Run(cfg, INITIAL, input).log)), input);
  }
}
