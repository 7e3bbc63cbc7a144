/**
 * What the tap/hold resolver computes, as functions on values: one tapping key,
 * the records postponed behind it, and the log of everything passed on to
 * record processing.  The class in TapHoldRing is proved against these.
 */
module TapHold {
  import opened KeyEvents
  import opened Actions

  const WAITING_BUFFER_SIZE := 8

  /**
   * One entry of the output log.  `Handed`, `LetThrough` and `Synthetic` are the
   * three ways a record reaches record processing: in turn, as a release allowed
   * past the undecided tapping key, and as a release made up to end a tap.
   * `Overflow` marks a full ring: everything waiting, and the record that did not
   * fit, is thrown away.
   */
  datatype Out =
    | Handed(record: Record)
    | LetThrough(record: Record)
    | Synthetic(record: Record)
    | Overflow(lost: seq<Event>)

  /**
   * What the resolver asks of the rest of the firmware.  Each answer may depend
   * on all records processed so far, since processing them changes layers.
   */
  datatype Config = Config(
    actionOf: (seq<Out>, KeyPos) -> Action,
    term: (seq<Out>, Record) -> Time16,
    quickTerm: (seq<Out>, Record) -> Time16,
    permissiveHold: (seq<Out>, Record) -> bool,
    holdOnOtherKeyPress: (seq<Out>, Record) -> bool)

  datatype State = State(tapping: Record, ring: seq<Record>, log: seq<Out>)

  const INITIAL := State(NO_RECORD, [], [])

  /**
   * The result of offering one record: the new state, the record (its tap field may
   * have been set), and whether it was consumed.
   */
  datatype StepResult = StepResult(state: State, record: Record, consumed: bool)

  // ---------------------------------------------------------------- predicates

  predicate IsIdle(s: State) { s.tapping.event.IsTick() }

  /** The tapping key is down and neither tap nor hold yet. */
  predicate IsUndecided(s: State) {
    !IsIdle(s) && s.tapping.event.pressed && s.tapping.tap.count == 0
  }

  predicate WithinTappingTerm(cfg: Config, s: State, e: Event) {
    TimerDiff16(e.time, s.tapping.event.time) < cfg.term(s.log, s.tapping)
  }

  predicate WithinQuickTapTerm(cfg: Config, s: State, e: Event) {
    TimerDiff16(e.time, s.tapping.event.time) < cfg.quickTerm(s.log, s.tapping)
  }

  predicate IsTapRecord(cfg: Config, s: State, r: Record) {
    !r.event.IsTick() && IsTapAction(cfg.actionOf(s.log, r.event.key))
  }

  predicate IsTappingRelease(s: State, r: Record) {
    s.tapping.event.key == r.event.key && !r.event.pressed
  }

  /** The ring holds the opposite event of the same key. */
  predicate Typed(ring: seq<Record>, e: Event) {
    exists i :: 0 <= i < |ring| && ring[i].event.key == e.key && ring[i].event.pressed != e.pressed
  }

  /** A ring slot holding a release that turns the tapping key into a tap. */
  predicate IsTapCandidate(cfg: Config, s: State, c: Record) {
    !c.event.IsTick() && c.event.key == s.tapping.event.key && !c.event.pressed
    && WithinTappingTerm(cfg, s, c.event)
  }

  // ---------------------------------------------------------------- operations

  function Hand(s: State, o: Out): State { s.(log := s.log + [o]) }

  function SetTapCount(r: Record, n: nat): Record { r.(tap := r.tap.(count := n)) }

  /** Index of the first candidate at or after `i`, or the ring's length. */
  function FirstCandidate(cfg: Config, s: State, i: nat): (k: nat)
    requires i <= |s.ring|
    ensures i <= k <= |s.ring|
    ensures forall j :: i <= j < k ==> !IsTapCandidate(cfg, s, s.ring[j])
    ensures k < |s.ring| ==> IsTapCandidate(cfg, s, s.ring[k])
    decreases |s.ring| - i
  {
    if i == |s.ring| || IsTapCandidate(cfg, s, s.ring[i]) then i else FirstCandidate(cfg, s, i + 1)
  }

  /** Looks ahead in the ring for the release of a tapping key that just started. */
  function ScanTap(cfg: Config, s: State): State {
    if s.tapping.tap.count > 0 || !s.tapping.event.pressed then s
    else
      var k := FirstCandidate(cfg, s, 0);
      if k == |s.ring| then s
      else
        var t := SetTapCount(s.tapping, 1);
        State(t, s.ring[k := SetTapCount(s.ring[k], 1)], s.log + [Handed(t)])
  }

  function SyntheticRelease(t: Record, time: Time16): Record {
    Record(t.event.(time := time, pressed := false), t.tap)
  }

  /** Whether this release goes past the undecided tapping key. */
  predicate LetsThrough(cfg: Config, s: State, r: Record) {
    IsUndecided(s) && WithinTappingTerm(cfg, s, r.event) && !r.event.IsTick()
    && !r.event.pressed && r.event.key != s.tapping.event.key
    && !Typed(s.ring, r.event)
    && !IsRetained(cfg.actionOf(s.log, r.event.key), r.tap.count)
  }

  function StepUndecided(cfg: Config, s: State, r: Record): StepResult {
    var give := s.log + [Handed(s.tapping)];
    if IsTappingRelease(s, r) then
      var t := SetTapCount(s.tapping, 1);
      StepResult(State(t, s.ring, s.log + [Handed(t)]), r.(tap := t.tap), false)
    else if !r.event.pressed && Typed(s.ring, r.event) && cfg.permissiveHold(s.log, s.tapping) then
      StepResult(State(NO_RECORD, s.ring, give), r, false)
    else if !r.event.pressed && !Typed(s.ring, r.event) then
      if IsRetained(cfg.actionOf(s.log, r.event.key), r.tap.count) then StepResult(s, r, false)
      else StepResult(Hand(s, LetThrough(r)), r, true)
    else if r.event.pressed then
      var t := s.tapping.(tap := s.tapping.tap.(interrupted := true));
      if cfg.holdOnOtherKeyPress(s.log, t) then
        StepResult(State(NO_RECORD, s.ring, s.log + [Handed(t)]), r, false)
      else
        StepResult(s.(tapping := t), r, false)
    else
      StepResult(s, r, false)
  }

  /** The tapping key is a tap whose release has not been processed. */
  function StepTapped(cfg: Config, s: State, r: Record, inTerm: bool): StepResult {
    if IsTappingRelease(s, r) then
      var r' := r.(tap := s.tapping.tap);
      StepResult(State(if inTerm then r' else NO_RECORD, s.ring, s.log + [Handed(r')]), r', true)
    else if IsTapRecord(cfg, s, r) && r.event.pressed then
      var log := if s.tapping.tap.count > 1
                 then s.log + [Synthetic(SyntheticRelease(s.tapping, r.event.time))] else s.log;
      StepResult(ScanTap(cfg, State(r, s.ring, log)), r, true)
    else
      StepResult(Hand(s, Handed(r)), r, true)
  }

  /** The tapping key has been tapped and released; another tap may follow. */
  function StepReleased(cfg: Config, s: State, r: Record): StepResult {
    if r.event.pressed then
      if s.tapping.event.key == r.event.key then
        if WithinQuickTapTerm(cfg, s, r.event) && !s.tapping.tap.interrupted && s.tapping.tap.count > 0 then
          var n := s.tapping.tap.count;
          var r' := r.(tap := s.tapping.tap.(count := if n < 15 then n + 1 else n));
          StepResult(State(r', s.ring, s.log + [Handed(r')]), r', true)
        else
          StepResult(s.(tapping := r), r, true)
      else if IsTapRecord(cfg, s, r) then
        StepResult(ScanTap(cfg, s.(tapping := r)), r, true)
      else
        var t := s.tapping.(tap := s.tapping.tap.(interrupted := true));
        StepResult(State(t, s.ring, s.log + [Handed(r)]), r, true)
    else
      StepResult(Hand(s, Handed(r)), r, true)
  }

  /** One call of the decision procedure on `r`, which may itself be the ring's head. */
  function Step(cfg: Config, s: State, r: Record): (res: StepResult)
    ensures |res.state.ring| == |s.ring|
  {
    if IsIdle(s) then
      if r.event.IsTick() then StepResult(s, r, true)
      else if r.event.pressed && IsTapRecord(cfg, s, r) then
        StepResult(ScanTap(cfg, s.(tapping := r)), r, true)
      else StepResult(Hand(s, Handed(r)), r, true)
    else if s.tapping.event.pressed then
      if WithinTappingTerm(cfg, s, r.event) then
        if r.event.IsTick() then StepResult(s, r, true)
        else if s.tapping.tap.count == 0 then StepUndecided(cfg, s, r)
        else StepTapped(cfg, s, r, true)
      else if s.tapping.tap.count == 0 then
        StepResult(State(NO_RECORD, s.ring, s.log + [Handed(s.tapping)]), r, false)
      else if r.event.IsTick() then StepResult(s, r, true)
      else StepTapped(cfg, s, r, false)
    else if WithinTappingTerm(cfg, s, r.event) then
      if r.event.IsTick() then StepResult(s, r, true) else StepReleased(cfg, s, r)
    else
      StepResult(s.(tapping := NO_RECORD), r, false)
  }

  /** Postpones a record that was not consumed; ticks are never stored. */
  function Enqueue(s: State, r: Record): State {
    if r.event.IsTick() then s
    else if |s.ring| + 1 >= WAITING_BUFFER_SIZE then
      State(NO_RECORD, [], s.log + [Overflow(Pending(s) + [r.event])])
    else s.(ring := s.ring + [r])
  }

  /** After the ring's head was offered: drop it if it was consumed. */
  function Advance(res: StepResult): State
    requires res.state.ring != []
  {
    if res.consumed then res.state.(ring := res.state.ring[1..])
    else res.state.(ring := res.state.ring[0 := res.record])
  }

  /** Offers the postponed records, oldest first, until one is not consumed. */
  function Drain(cfg: Config, s: State): State
    decreases |s.ring|
  {
    if s.ring == [] then s
    else
      var res := Step(cfg, s, s.ring[0]);
      if res.consumed then Drain(cfg, Advance(res)) else Advance(res)
  }

  /** After an incoming record was offered: store it unless it was consumed. */
  function Store(res: StepResult): State {
    if res.consumed then res.state else Enqueue(res.state, res.record)
  }

  /** What happens to an incoming record before the drain. */
  function Admit(cfg: Config, s: State, r: Record): State { Store(Step(cfg, s, r)) }

  /** One whole call of the resolver. */
  function Process(cfg: Config, s: State, r: Record): State {
    Drain(cfg, Admit(cfg, s, r))
  }

  /** A run: each event arrives as a record with no tap information. */
  function Run(cfg: Config, s: State, input: seq<Event>): State {
    if input == [] then s
    else Process(cfg, Run(cfg, s, input[..|input| - 1]), Record(input[|input| - 1], NO_TAP))
  }

  // ---------------------------------------------------------------- accounting

  function Events(rs: seq<Record>): (es: seq<Event>)
    ensures |es| == |rs|
    ensures forall i :: 0 <= i < |rs| ==> es[i] == rs[i].event
  {
    seq(|rs|, i requires 0 <= i < |rs| => rs[i].event)
  }

  function Undecided(s: State): seq<Event> {
    if IsUndecided(s) then [s.tapping.event] else []
  }

  /** Events that have arrived and are still waiting, oldest first. */
  function Pending(s: State): seq<Event> { Undecided(s) + Events(s.ring) }

  /** The input events passed on to record processing, in the order they were. */
  function Delivered(log: seq<Out>): seq<Event> {
    if log == [] then []
    else
      var o := log[|log| - 1];
      Delivered(log[..|log| - 1]) + (if o.Handed? || o.LetThrough? then [o.record.event] else [])
  }

  /** The input events thrown away by overflows. */
  function Lost(log: seq<Out>): seq<Event> {
    if log == [] then []
    else
      var o := log[|log| - 1];
      Lost(log[..|log| - 1]) + (if o.Overflow? then o.lost else [])
  }

  /** Everything delivered, then the undecided tapping key. */
  function Front(s: State): seq<Event> { Delivered(s.log) + Undecided(s) }

  /** Everything delivered and then everything waiting: the line records stand in. */
  function Line(s: State): seq<Event> { Front(s) + Events(s.ring) }

  function IfEvent(e: Event): seq<Event> { if e.IsTick() then [] else [e] }

  /** The input without its ticks. */
  function Arrivals(input: seq<Event>): seq<Event> {
    if input == [] then [] else Arrivals(input[..|input| - 1]) + IfEvent(input[|input| - 1])
  }
}
