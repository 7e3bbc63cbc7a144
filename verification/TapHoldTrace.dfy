/** Runs given event by event and state by state, for concrete examples. */
module TapHoldTrace {
  import opened KeyEvents
  import opened TapHold
  import opened TapHoldOrder
  import opened TapHoldRelease

  /** Each event leads from one state to the next. */
  predicate Traces(cfg: Config, events: seq<Event>, states: seq<State>) {
    && |states| == |events| + 1 && states[0] == INITIAL
    && forall i :: 0 <= i < |events| ==> Process(cfg, states[i], Record(events[i], NO_TAP)) == states[i + 1]
  }

  lemma {:induction false} TraceRuns(cfg: Config, events: seq<Event>, states: seq<State>, n: nat)
    requires Traces(cfg, events, states) && n <= |events|
    ensures Run(cfg, INITIAL, events[..n]) == states[n]
  {
    if n > 0 {
      TraceRuns(cfg, events, states, n - 1);
      assert events[..n][..n - 1] == events[..n - 1];
    }
  }

  lemma {:induction false} TraceOrderly(cfg: Config, events: seq<Event>, states: seq<State>, n: nat)
    requires Traces(cfg, events, states) && n <= |events|
    requires forall i :: 0 <= i < |events| ==> ArrivesInTurn(cfg, states[i], events[i])
    ensures Orderly(cfg, events[..n])
  {
    if n > 0 {
      TraceOrderly(cfg, events, states, n - 1);
      TraceRuns(cfg, events, states, n - 1);
      assert events[..n][..n - 1] == events[..n - 1];
    }
  }

  lemma {:induction false} TracePunctual(cfg: Config, events: seq<Event>, states: seq<State>, n: nat)
    requires Traces(cfg, events, states) && n <= |events|
    requires forall i :: 0 <= i < |events| ==> InTime(Pending(states[i]) + IfEvent(events[i]))
    ensures Punctual(cfg, events[..n])
  {
    if n > 0 {
      TracePunctual(cfg, events, states, n - 1);
      TraceRuns(cfg, events, states, n - 1);
      assert events[..n][..n - 1] == events[..n - 1];
    }
  }

  /** The events from `p` on and before `i` do not concern the key. */
  predicate Apart(events: seq<Event>, key: KeyPos, p: nat, i: nat)
    requires p <= i <= |events|
  {
    forall j :: p <= j < i ==> events[j].IsTick() || events[j].key != key
  }

  /** The key's last event before `i`, if any, is the opposite of the i-th. */
  predicate AlternatesAt(events: seq<Event>, i: nat)
    requires i < |events|
  {
    || Apart(events, events[i].key, 0, i)
    || exists p :: 0 <= p < i && !events[p].IsTick() && events[p].key == events[i].key
                   && events[p].pressed != events[i].pressed && Apart(events, events[i].key, p + 1, i)
  }

  lemma {:induction false} SelectKept(events: seq<Event>, key: KeyPos, p: nat, i: nat)
    requires p <= i <= |events| && Apart(events, key, p, i)
    ensures Select(OfKey(key), Arrivals(events[..i])) == Select(OfKey(key), Arrivals(events[..p]))
  {
    if p < i {
      SelectKept(events, key, p, i - 1);
      assert events[..i][..i - 1] == events[..i - 1];
      SelectConcat(OfKey(key), Arrivals(events[..i - 1]), IfEvent(events[i - 1]));
      SelectNone(OfKey(key), IfEvent(events[i - 1]));
    }
  }

  /** The last event of a key, if it is the one at `p`. */
  lemma {:induction false} LastSelected(events: seq<Event>, key: KeyPos, p: nat, i: nat)
    requires p < i <= |events| && !events[p].IsTick() && events[p].key == key && Apart(events, key, p + 1, i)
    ensures var own := Select(OfKey(key), Arrivals(events[..i])); own != [] && own[|own| - 1] == events[p]
  {
    SelectKept(events, key, p + 1, i);
    assert events[..p + 1][..p] == events[..p];
    SelectConcat(OfKey(key), Arrivals(events[..p]), [events[p]]);
    assert [events[p]][..0] == [];
  }

  lemma {:induction false} AlternatesThere(events: seq<Event>, i: nat)
    requires i < |events| && AlternatesAt(events, i)
    ensures Alternates(Arrivals(events[..i]), events[i])
  {
    var key := events[i].key;
    if Apart(events, key, 0, i) {
      SelectKept(events, key, 0, i);
    } else {
      var p :| 0 <= p < i && !events[p].IsTick() && events[p].key == key
               && events[p].pressed != events[i].pressed && Apart(events, key, p + 1, i);
      LastSelected(events, key, p, i);
    }
  }

  lemma {:induction false} TraceAlternates(events: seq<Event>, n: nat)
    requires n <= |events| && forall i :: 0 <= i < |events| ==> events[i].IsTick() || AlternatesAt(events, i)
    ensures AlternatingInput(events[..n])
  {
    if n > 0 {
      TraceAlternates(events, n - 1);
      assert events[..n][..n - 1] == events[..n - 1];
      if !events[n - 1].IsTick() {
        AlternatesThere(events, n - 1);
      }
    }
  }

  predicate Rising(es: seq<Event>) { forall j, k :: 0 <= j <= k < |es| ==> es[j].time <= es[k].time }

  lemma {:induction false} RisingInTime(es: seq<Event>)
    requires Rising(es)
    ensures InTime(es)
  {
    forall j, k | 0 <= j <= k < |es|
      ensures TimerDiff16(es[j].time, es[0].time) <= TimerDiff16(es[k].time, es[0].time)
    {
      assert es[0].time <= es[j].time <= es[k].time;
    }
  }
}
