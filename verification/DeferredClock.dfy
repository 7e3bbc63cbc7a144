/**
 * Timing of the deferred executor.  An ideal executor keeps deadlines on a clock
 * that never wraps; the real one, on its 32-bit clock, is proved to do the same
 * as long as every delay is below 2^31 and no deadline is overdue by more.
 */
module DeferredClock {
  import opened Deferred

  const HALF := 0x8000_0000

  /** A slot of the ideal executor: free, or armed with a true deadline. */
  datatype Slot = Idle | Armed(token: Token, due: nat, callback: nat, arg: int)

  datatype Plan = Plan(slots: seq<Slot>, current: Token, last: nat)

  function ToEntry(s: Slot): Entry {
    match s
    case Idle => FREE
    case Armed(token, due, callback, arg) => Entry(token, due % CLOCK, callback, arg)
  }

  function ToEntries(slots: seq<Slot>): (es: seq<Entry>)
    ensures |es| == |slots| && forall i :: 0 <= i < |es| ==> es[i] == ToEntry(slots[i])
  {
    seq(|slots|, i requires 0 <= i < |slots| => ToEntry(slots[i]))
  }

  function ToTable(p: Plan): Table { Table(ToEntries(p.slots), p.current, p.last % CLOCK) }

  // ---------------------------------------------------------------- the ideal executor

  function IdealDefer(p: Plan, now: nat, delay: Time32, callback: nat, arg: int): Plan {
    var t := ToTable(p);
    var k := Find(t.entries, INVALID, 0);
    if p.slots == [] || delay == 0 || callback == 0 || k == |p.slots| then p
    else if Allocate(t) == INVALID then p.(current := CurrentAfter(t))
    else p.(slots := p.slots[k := Armed(Allocate(t), now + delay, callback, arg)], current := Allocate(t))
  }

  function IdealExtend(p: Plan, token: Token, now: nat, delay: Time32): Plan {
    var k := Find(ToTable(p).entries, token, 0);
    if p.slots == [] || delay == 0 || token == INVALID || k == |p.slots| then p
    else p.(slots := p.slots[k := p.slots[k].(due := now + delay)])
  }

  function IdealCancel(p: Plan, token: Token): Plan {
    var k := Find(ToTable(p).entries, token, 0);
    if p.slots == [] || token == INVALID || k == |p.slots| then p
    else p.(slots := p.slots[k := Idle])
  }

  /** A slot after a task run: it fires if and only if its deadline has come. */
  function IdealVisit(s: Slot, now: nat, cb: Callbacks): Slot {
    if s.Idle? || now < s.due then s
    else
      var delay := cb(s.callback, s.due % CLOCK, s.arg);
      if delay > 0 then s.(due := s.due + delay) else Idle
  }

  /** The task does something only when the true time has moved on. */
  function IdealTask(p: Plan, now: nat, cb: Callbacks): Plan {
    if now <= p.last then p
    else
      p.(slots := seq(|p.slots|, i requires 0 <= i < |p.slots| => IdealVisit(p.slots[i], now, cb)), last := now)
  }

  /** The callbacks invoked by a task run: those whose deadline has come, once each. */
  function IdealCalls(slots: seq<Slot>, now: nat, n: nat): seq<Call>
    requires n <= |slots|
  {
    if n == 0 then []
    else
      var s := slots[n - 1];
      IdealCalls(slots, now, n - 1)
      + (if s.Armed? && s.due <= now then [Call(s.callback, s.due % CLOCK, s.arg)] else [])
  }

  function IdealCallsOf(p: Plan, now: nat): seq<Call> {
    if now <= p.last then [] else IdealCalls(p.slots, now, |p.slots|)
  }

  // ---------------------------------------------------------------- wrapping arithmetic

  lemma {:induction false} ModOfMod(a: int, b: int)
    ensures (a % CLOCK - b % CLOCK) % CLOCK == (a - b) % CLOCK
    ensures (a % CLOCK + b) % CLOCK == (a + b) % CLOCK
  {
    var qa, qb := a / CLOCK, b / CLOCK;
    assert a == qa * CLOCK + a % CLOCK && b == qb * CLOCK + b % CLOCK;
    ModShift(a % CLOCK - b % CLOCK, qa - qb);
    ModShift(a % CLOCK + b, qa);
  }

  lemma {:induction false} ModShift(x: int, k: int)
    ensures (x + k * CLOCK) % CLOCK == x % CLOCK
  {
  }

  /** The wrapped difference is the true one when that is less than half the range. */
  lemma {:induction false} DiffIsTrue(a: int, b: int)
    requires -HALF <= a - b < HALF
    ensures Diff32(a % CLOCK, b % CLOCK) == a - b
  {
    ModOfMod(a, b);
    if a - b < 0 {
      ModShift(a - b, 1);
    }
  }

  /** Half the range or more ahead looks like the past: such a delay is due at once. */
  lemma {:induction false} DueAtOnce(now: nat, delay: Time32)
    requires delay > 0
    ensures Diff32(Add32(now % CLOCK, delay), now % CLOCK) <= 0 <==> delay >= HALF
  {
    ModOfMod(now, delay);
    ModOfMod(now + delay, now);
  }

  /** The throttle lets a run through exactly when the clock has moved on. */
  lemma {:induction false} ThrottleExactly(now: nat, last: nat)
    requires last <= now < last + HALF
    ensures Diff32(now % CLOCK, last % CLOCK) > 0 <==> now > last
  {
    DiffIsTrue(now, last);
  }

  // ---------------------------------------------------------------- refinement

  /** The deadline is less than 2^31 ahead, and overdue by at most 2^31. */
  predicate InWindow(s: Slot, now: nat) { s.Armed? ==> s.due < now + HALF && now <= s.due + HALF }

  predicate AllInWindow(p: Plan, now: nat) {
    forall i :: 0 <= i < |p.slots| ==> InWindow(p.slots[i], now)
  }

  lemma {:induction false} VisitRefines(s: Slot, now: nat, cb: Callbacks)
    requires InWindow(s, now) && (s.Armed? ==> s.token != INVALID)
    ensures Visit(ToEntry(s), now % CLOCK, cb) == ToEntry(IdealVisit(s, now, cb))
    ensures IsDue(ToEntry(s), now % CLOCK) <==> s.Armed? && s.due <= now
  {
    if s.Armed? {
      DiffIsTrue(s.due, now);
      ModOfMod(s.due, cb(s.callback, s.due % CLOCK, s.arg));
    }
  }

  predicate TokensValid(p: Plan) {
    forall i :: 0 <= i < |p.slots| && p.slots[i].Armed? ==> p.slots[i].token != INVALID
  }

  /** The last run lies behind by less than 2^31. */
  predicate RanLately(p: Plan, now: nat) { p.last <= now < p.last + HALF }

  lemma {:induction false} TaskRefines(p: Plan, now: nat, cb: Callbacks)
    requires AllInWindow(p, now) && TokensValid(p) && RanLately(p, now)
    ensures Task(ToTable(p), now % CLOCK, cb) == ToTable(IdealTask(p, now, cb))
    ensures CallsOf(ToTable(p), now % CLOCK) == IdealCallsOf(p, now)
  {
    ThrottleExactly(now, p.last);
    CallsAreExact(p, now, |p.slots|);
    forall i | 0 <= i < |p.slots|
      ensures Visit(ToEntry(p.slots[i]), now % CLOCK, cb) == ToEntry(IdealVisit(p.slots[i], now, cb))
    {
      VisitRefines(p.slots[i], now, cb);
    }
  }

  /**
   * Within the window a task run invokes exactly the callbacks whose true deadline
   * has come: none early, none left out, none twice.
   */
  lemma {:induction false} CallsAreExact(p: Plan, now: nat, n: nat)
    requires AllInWindow(p, now) && TokensValid(p) && n <= |p.slots|
    ensures TaskCalls(ToTable(p).entries, now % CLOCK, n) == IdealCalls(p.slots, now, n)
  {
    if n > 0 {
      CallsAreExact(p, now, n - 1);
      VisitRefines(p.slots[n - 1], now, (a, b, c) => 0);
    }
  }

  lemma {:induction false} DeferRefines(p: Plan, now: nat, delay: Time32, callback: nat, arg: int)
    ensures Defer(ToTable(p), now % CLOCK, delay, callback, arg).0 == ToTable(IdealDefer(p, now, delay, callback, arg))
  {
    ModOfMod(now, delay);
    var t := ToTable(p);
    var k := Find(t.entries, INVALID, 0);
    if k < |p.slots| && Allocate(t) != INVALID {
      var s := Armed(Allocate(t), now + delay, callback, arg);
      assert ToEntries(p.slots[k := s]) == ToEntries(p.slots)[k := ToEntry(s)];
    }
  }

  lemma {:induction false} ExtendRefines(p: Plan, token: Token, now: nat, delay: Time32)
    ensures Extend(ToTable(p), token, now % CLOCK, delay).0 == ToTable(IdealExtend(p, token, now, delay))
  {
    ModOfMod(now, delay);
    var k := Find(ToTable(p).entries, token, 0);
    if k < |p.slots| && token != INVALID {
      var s := p.slots[k].(due := now + delay);
      assert ToEntries(p.slots[k := s]) == ToEntries(p.slots)[k := ToEntry(s)];
    }
  }

  lemma {:induction false} CancelRefines(p: Plan, token: Token)
    ensures Cancel(ToTable(p), token).0 == ToTable(IdealCancel(p, token))
  {
    var k := Find(ToTable(p).entries, token, 0);
    if k < |p.slots| && token != INVALID {
      assert ToEntries(p.slots[k := Idle]) == ToEntries(p.slots)[k := FREE];
    }
  }

  // ---------------------------------------------------------------- whole runs

  datatype Act =
    | DeferAct(delay: Time32, callback: nat, arg: int)
    | ExtendAct(token: Token, delay: Time32)
    | CancelAct(token: Token)
    | TaskAct(cb: Callbacks)
    | ElsewhereAct(current: Token)

  /** An operation and the true time it happens at. */
  datatype Timed = Timed(now: nat, act: Act)

  function IdealApply(p: Plan, o: Timed): Plan {
    match o.act
    case DeferAct(delay, callback, arg) => IdealDefer(p, o.now, delay, callback, arg)
    case ExtendAct(token, delay) => IdealExtend(p, token, o.now, delay)
    case CancelAct(token) => IdealCancel(p, token)
    case TaskAct(cb) => IdealTask(p, o.now, cb)
    case ElsewhereAct(current) => p.(current := current)
  }

  /** The same operation as the firmware sees it, on its wrapped clock. */
  function Wrapped(o: Timed): Op {
    var now := o.now % CLOCK;
    match o.act
    case DeferAct(delay, callback, arg) => DeferOp(now, delay, callback, arg)
    case ExtendAct(token, delay) => ExtendOp(token, now, delay)
    case CancelAct(token) => CancelOp(token)
    case TaskAct(cb) => TaskOp(now, cb)
    case ElsewhereAct(current) => Elsewhere(current)
  }

  function WrappedAll(os: seq<Timed>): (ops: seq<Op>)
    ensures |ops| == |os| && forall i :: 0 <= i < |os| ==> ops[i] == Wrapped(os[i])
  {
    seq(|os|, i requires 0 <= i < |os| => Wrapped(os[i]))
  }

  function IdealRun(p: Plan, os: seq<Timed>): Plan {
    if os == [] then p else IdealApply(IdealRun(p, os[..|os| - 1]), os[|os| - 1])
  }

  function IdealRunCalls(p: Plan, os: seq<Timed>): seq<Call> {
    if os == [] then []
    else
      var before, o := os[..|os| - 1], os[|os| - 1];
      IdealRunCalls(p, before) + (if o.act.TaskAct? then IdealCallsOf(IdealRun(p, before), o.now) else [])
  }

  /** Delays, and what callbacks return, are below 2^31. */
  ghost predicate ShortDelays(act: Act) {
    match act
    case DeferAct(delay, _, _) => delay < HALF
    case ExtendAct(_, delay) => delay < HALF
    case TaskAct(cb) => forall c, t, a :: cb(c, t, a) < HALF
    case _ => true
  }

  predicate NotOverdue(p: Plan, now: nat) {
    forall i :: 0 <= i < |p.slots| && p.slots[i].Armed? ==> now <= p.slots[i].due + HALF
  }

  predicate NotFarAhead(p: Plan, now: nat) {
    forall i :: 0 <= i < |p.slots| && p.slots[i].Armed? ==> p.slots[i].due < now + HALF
  }

  function LastTime(os: seq<Timed>): nat { if os == [] then 0 else os[|os| - 1].now }

  /**
   * Time does not run backwards, delays are short, and the task runs often enough:
   * it finds nothing overdue by more than 2^31, and last ran less than 2^31 ago.
   */
  ghost predicate Timely(p: Plan, os: seq<Timed>) {
    os == [] ||
      var before, o := os[..|os| - 1], os[|os| - 1];
      && Timely(p, before) && LastTime(before) <= o.now && ShortDelays(o.act)
      && (o.act.TaskAct? ==>
            var p' := IdealRun(p, before); NotOverdue(p', o.now) && o.now < p'.last + HALF)
  }

  lemma {:induction false} ApplyKeepsTokens(p: Plan, o: Timed)
    requires TokensValid(p)
    ensures TokensValid(IdealApply(p, o))
  {
  }

  lemma {:induction false} ApplyRefines(p: Plan, o: Timed)
    requires TokensValid(p) && (o.act.TaskAct? ==> AllInWindow(p, o.now) && RanLately(p, o.now))
    ensures Apply(ToTable(p), Wrapped(o)) == ToTable(IdealApply(p, o))
  {
    match o.act
    case DeferAct(delay, callback, arg) => DeferRefines(p, o.now, delay, callback, arg);
    case ExtendAct(token, delay) => ExtendRefines(p, token, o.now, delay);
    case CancelAct(token) => CancelRefines(p, token);
    case TaskAct(cb) => TaskRefines(p, o.now, cb);
    case ElsewhereAct(_) =>
  }

  lemma {:induction false} ApplyStaysNear(p: Plan, o: Timed, before: nat)
    requires NotFarAhead(p, before) && before <= o.now && ShortDelays(o.act)
    ensures NotFarAhead(p, o.now) && NotFarAhead(IdealApply(p, o), o.now)
    ensures p.last <= before ==> IdealApply(p, o).last <= o.now
  {
  }

  /** One operation: the same table afterwards, wrapped, and the same invocations. */
  lemma {:induction false} NextRefines(p: Plan, o: Timed, before: nat)
    requires TokensValid(p) && NotFarAhead(p, before) && p.last <= before <= o.now && ShortDelays(o.act)
    requires o.act.TaskAct? ==> NotOverdue(p, o.now) && o.now < p.last + HALF
    ensures var p' := IdealApply(p, o);
      && Apply(ToTable(p), Wrapped(o)) == ToTable(p')
      && TokensValid(p') && NotFarAhead(p', o.now) && p'.last <= o.now
    ensures o.act.TaskAct? ==> CallsOf(ToTable(p), Wrapped(o).now) == IdealCallsOf(p, o.now)
  {
    ApplyStaysNear(p, o, before);
    ApplyRefines(p, o);
    ApplyKeepsTokens(p, o);
    if o.act.TaskAct? {
      TaskRefines(p, o.now, o.act.cb);
    }
  }

  lemma {:induction false} RunRefines(p0: Plan, os: seq<Timed>, ops: seq<Op>)
    requires Timely(p0, os) && TokensValid(p0) && NotFarAhead(p0, 0) && p0.last == 0 && ops == WrappedAll(os)
    ensures var p := IdealRun(p0, os);
      && RunOps(ToTable(p0), ops) == ToTable(p) && RunCalls(ToTable(p0), ops) == IdealRunCalls(p0, os)
      && TokensValid(p) && NotFarAhead(p, LastTime(os)) && p.last <= LastTime(os)
  {
    if os != [] {
      var n := |os| - 1;
      assert ops[..n] == WrappedAll(os[..n]);
      RunRefines(p0, os[..n], ops[..n]);
      NextRefines(IdealRun(p0, os[..n]), os[n], LastTime(os[..n]));
    }
  }

  /**
   * Over every timely run, throttle included, the wrapped table is exactly the ideal
   * one, wrapped, and the same callbacks are invoked in the same order: the 32-bit
   * clock never makes a difference.
   */
  lemma {:induction false} ClockNeverMatters(size: nat, current: Token, os: seq<Timed>)
    requires Timely(Plan(seq(size, _ => Idle), current, 0), os)
    ensures var p0, t0 := Plan(seq(size, _ => Idle), current, 0), Table(seq(size, _ => FREE), current, 0);
      && RunOps(t0, WrappedAll(os)) == ToTable(IdealRun(p0, os))
      && RunCalls(t0, WrappedAll(os)) == IdealRunCalls(p0, os)
  {
    var p0, t0 := Plan(seq(size, _ => Idle), current, 0), Table(seq(size, _ => FREE), current, 0);
    assert ToTable(p0) == t0;
    RunRefines(p0, os, WrappedAll(os));
  }

  // ---------------------------------------------------------------- repetition

  /** The task runs a slot goes through, each with its time and callbacks. */
  datatype Round = Round(now: Time32, cb: Callbacks)

  function VisitAll(e: Entry, rounds: seq<Round>): Entry {
    if rounds == [] then e
    else Visit(VisitAll(e, rounds[..|rounds| - 1]), rounds[|rounds| - 1].now, rounds[|rounds| - 1].cb)
  }

  /** The sum of the delays its callback returned, and how often it was invoked. */
  function Returned(e: Entry, rounds: seq<Round>): (int, nat) {
    if rounds == [] then (0, 0)
    else
      var before, r := rounds[..|rounds| - 1], rounds[|rounds| - 1];
      var (sum, n), e' := Returned(e, before), VisitAll(e, before);
      if IsDue(e', r.now) then (sum + r.cb(e'.callback, e'.trigger, e'.arg), n + 1) else (sum, n)
  }

  /**
   * As long as a slot stays armed, its deadline is the original one plus all delays
   * returned so far, modulo 2^32: late runs do not shift later ones.
   */
  lemma {:induction false} RepeatsKeepPace(e: Entry, rounds: seq<Round>)
    ensures var e' := VisitAll(e, rounds);
      e'.token != INVALID ==>
        && e' == e.(trigger := (e.trigger + Returned(e, rounds).0) % CLOCK)
        && Returned(e, rounds).1 <= |rounds|
  {
    if rounds != [] {
      var before, r := rounds[..|rounds| - 1], rounds[|rounds| - 1];
      RepeatsKeepPace(e, before);
      var e' := VisitAll(e, before);
      var sum := Returned(e, before).0;
      if IsDue(e', r.now) {
        var delay := r.cb(e'.callback, e'.trigger, e'.arg);
        ModOfMod(e.trigger + sum, delay);
      }
    }
  }
}
