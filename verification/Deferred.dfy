/**
 * The deferred executor: a table of callbacks with 8-bit tokens and deadlines on
 * a wrapping 32-bit clock.  This module holds what each operation does to the
 * table, and the token allocator's guarantees.
 */
module Deferred {

  const TOKENS := 256
  const CLOCK := 0x1_0000_0000
  const INVALID := 0

  type Token = t: int | 0 <= t < 256
  type Time32 = t: int | 0 <= t < 0x1_0000_0000

  /** A table slot; token 0 marks it as free.  Callback 0 is the null pointer. */
  datatype Entry = Entry(token: Token, trigger: Time32, callback: nat, arg: int)

  const FREE := Entry(INVALID, 0, 0, 0)

  /** What the callback returns when it is invoked: the delay until it runs again, or 0. */
  type Callbacks = (nat, Time32, int) -> Time32

  /** One invocation of a callback. */
  datatype Call = Call(callback: nat, trigger: Time32, arg: int)

  /** The slots, the last token tried, and when the task last ran. */
  datatype Table = Table(entries: seq<Entry>, current: Token, last: Time32)

  // ---------------------------------------------------------------- tokens

  predicate IsUsed(entries: seq<Entry>, token: int) {
    exists i :: 0 <= i < |entries| && entries[i].token == token
  }

  predicate CanBeUsed(entries: seq<Entry>, token: int) {
    token != INVALID && !IsUsed(entries, token)
  }

  function After(token: Token): Token { (token + 1) % TOKENS }

  /** The first usable token among the `n` that follow `token`, or 0. */
  function FindToken(entries: seq<Entry>, token: Token, n: nat): Token
    decreases n
  {
    if n == 0 then INVALID
    else if CanBeUsed(entries, After(token)) then After(token)
    else FindToken(entries, After(token), n - 1)
  }

  /** All 256 values are tried, starting after the current one. */
  function Allocate(t: Table): Token { FindToken(t.entries, t.current, TOKENS) }

  /** The counter afterwards: the token found, or the value the search started from. */
  function CurrentAfter(t: Table): Token {
    if Allocate(t) != INVALID then Allocate(t) else After(t.current)
  }

  lemma {:induction false} FoundIsUsable(entries: seq<Entry>, token: Token, n: nat)
    ensures FindToken(entries, token, n) != INVALID ==> CanBeUsed(entries, FindToken(entries, token, n))
    decreases n
  {
    if n > 0 && !CanBeUsed(entries, After(token)) {
      FoundIsUsable(entries, After(token), n - 1);
    }
  }

  /** A usable token at most `n` places further on is not missed. */
  lemma {:induction false} UsableIsFound(entries: seq<Entry>, token: Token, n: nat, usable: Token)
    requires CanBeUsed(entries, usable) && 0 < (usable - token - 1) % TOKENS + 1 <= n
    ensures FindToken(entries, token, n) != INVALID
    decreases n
  {
    if !CanBeUsed(entries, After(token)) {
      assert (usable - token - 1) % TOKENS != 0;
      assert (usable - After(token) - 1) % TOKENS == (usable - token - 1) % TOKENS - 1;
      UsableIsFound(entries, After(token), n - 1, usable);
    }
  }

  /** Allocation fails if and only if every token is in use; what it returns is not in use. */
  lemma {:induction false} AllocateExactly(t: Table)
    ensures Allocate(t) == INVALID <==> forall token: Token :: !CanBeUsed(t.entries, token)
    ensures Allocate(t) != INVALID ==> CanBeUsed(t.entries, Allocate(t))
  {
    FoundIsUsable(t.entries, t.current, TOKENS);
    if token: Token :| CanBeUsed(t.entries, token) {
      UsableIsFound(t.entries, t.current, TOKENS, token);
    }
  }

  /** One token on, what is ahead comes one nearer. */
  lemma {:induction false} OneNearer(token: Token, found: Token, k: nat)
    requires 1 < k && k < (found - token - 1) % TOKENS + 1
    ensures k - 1 < (found - After(token) - 1) % TOKENS + 1
    ensures found != After(token) && (After(token) + (k - 1)) % TOKENS == (token + k) % TOKENS
  {
  }

  lemma {:induction false} FindsNearest(entries: seq<Entry>, token: Token, n: nat, k: nat)
    requires FindToken(entries, token, n) != INVALID
    requires 0 < k && k < (FindToken(entries, token, n) - token - 1) % TOKENS + 1
    ensures !CanBeUsed(entries, (token + k) % TOKENS)
    decreases n
  {
    if !CanBeUsed(entries, After(token)) && k > 1 {
      OneNearer(token, FindToken(entries, token, n), k);
      FindsNearest(entries, After(token), n - 1, k - 1);
    }
  }

  /** The token given out is the next usable one: all between it and the last are in use. */
  lemma {:induction false} AllocateNearest(t: Table, k: nat)
    requires Allocate(t) != INVALID && 0 < k && k < (Allocate(t) - t.current - 1) % 256 + 1
    ensures !CanBeUsed(t.entries, (t.current + k) % 256)
  {
    FindsNearest(t.entries, t.current, TOKENS, k);
  }

  // ---------------------------------------------------------------- pigeonhole

  function LiveTokens(entries: seq<Entry>): set<int> {
    set i | 0 <= i < |entries| && entries[i].token != INVALID :: entries[i].token
  }

  lemma {:induction false} FewTokens(entries: seq<Entry>)
    ensures |LiveTokens(entries)| <= |entries|
    ensures (exists i :: 0 <= i < |entries| && entries[i].token == INVALID) ==> |LiveTokens(entries)| < |entries|
  {
    if entries != [] {
      var n := |entries| - 1;
      var rest, last := entries[..n], entries[n].token;
      FewTokens(rest);
      if last == INVALID {
        assert LiveTokens(entries) == LiveTokens(rest);
      } else {
        assert LiveTokens(entries) == LiveTokens(rest) + {last};
        if i :| 0 <= i < |entries| && entries[i].token == INVALID {
          assert rest[i].token == INVALID;
        }
      }
    }
  }

  function TokensUpTo(n: nat): set<int> { if n == 0 then {} else TokensUpTo(n - 1) + {n} }

  lemma {:induction false} TokensUpToSize(n: nat)
    ensures |TokensUpTo(n)| == n && forall t :: t in TokensUpTo(n) <==> 1 <= t <= n
  {
    if n > 0 {
      TokensUpToSize(n - 1);
    }
  }

  lemma {:induction false} SomeTokenFree(live: set<int>, n: nat) returns (token: int)
    requires |live| < n
    ensures 1 <= token <= n && token !in live
  {
    TokensUpToSize(n);
    var all := TokensUpTo(n);
    assert exists t :: t in all && t !in live by {
      if forall t :: t in all ==> t in live {
        SubsetSize(all, live);
      }
    }
    token :| token in all && token !in live;
  }

  /** With a free slot in a table of at most 255 entries, allocation always succeeds. */
  lemma {:induction false} AllocateSucceeds(t: Table, i: nat)
    requires i < |t.entries| <= 255 && t.entries[i].token == INVALID
    ensures Allocate(t) != INVALID
  {
    AllocateExactly(t);
    FewTokens(t.entries);
    var token := SomeTokenFree(LiveTokens(t.entries), |t.entries|);
    assert CanBeUsed(t.entries, token);
  }

  lemma {:induction false} SubsetSize(a: set<int>, b: set<int>)
    requires a <= b
    ensures |a| <= |b|
  {
    assert b == a + (b - a);
  }

  // ---------------------------------------------------------------- operations

  function Add32(a: Time32, b: Time32): Time32 { (a + b) % CLOCK }

  /** (int32_t)TIMER_DIFF_32(a, b). */
  function Diff32(a: Time32, b: Time32): int {
    var d := (a - b) % CLOCK;
    if d < 0x8000_0000 then d else d - CLOCK
  }

  /** The first slot with this token, or the table's length. */
  function Find(entries: seq<Entry>, token: Token, i: nat): (k: nat)
    requires i <= |entries|
    ensures i <= k <= |entries|
    ensures forall j :: i <= j < k ==> entries[j].token != token
    ensures k < |entries| ==> entries[k].token == token
    decreases |entries| - i
  {
    if i == |entries| || entries[i].token == token then i else Find(entries, token, i + 1)
  }

  /** Queues a callback; gives its token, or 0 if nothing was queued. */
  function Defer(t: Table, now: Time32, delay: Time32, callback: nat, arg: int): (Table, Token) {
    var k := Find(t.entries, INVALID, 0);
    if t.entries == [] || delay == 0 || callback == 0 || k == |t.entries| then (t, INVALID)
    else if Allocate(t) == INVALID then (t.(current := CurrentAfter(t)), INVALID)
    else
      var e := Entry(Allocate(t), Add32(now, delay), callback, arg);
      (t.(entries := t.entries[k := e], current := Allocate(t)), Allocate(t))
  }

  /** Moves a deadline; gives whether the token was found. */
  function Extend(t: Table, token: Token, now: Time32, delay: Time32): (Table, bool) {
    var k := Find(t.entries, token, 0);
    if t.entries == [] || delay == 0 || token == INVALID || k == |t.entries| then (t, false)
    else (t.(entries := t.entries[k := t.entries[k].(trigger := Add32(now, delay))]), true)
  }

  /** Frees a slot; gives whether the token was found. */
  function Cancel(t: Table, token: Token): (Table, bool) {
    var k := Find(t.entries, token, 0);
    if t.entries == [] || token == INVALID || k == |t.entries| then (t, false)
    else (t.(entries := t.entries[k := FREE]), true)
  }

  /** Whether a slot's callback is invoked by a task run at `now`. */
  predicate IsDue(e: Entry, now: Time32) { e.token != INVALID && Diff32(e.trigger, now) <= 0 }

  /** A slot after a task run. */
  function Visit(e: Entry, now: Time32, cb: Callbacks): Entry {
    if !IsDue(e, now) then e
    else
      var delay := cb(e.callback, e.trigger, e.arg);
      if delay > 0 then e.(trigger := Add32(e.trigger, delay)) else FREE
  }

  /** The table after a task run over its first `n` slots. */
  function TaskEntries(entries: seq<Entry>, now: Time32, cb: Callbacks, n: nat): (out: seq<Entry>)
    requires n <= |entries|
    ensures |out| == |entries|
    ensures forall i :: 0 <= i < |entries| ==> out[i] == if i < n then Visit(entries[i], now, cb) else entries[i]
  {
    seq(|entries|, i requires 0 <= i < |entries| => if i < n then Visit(entries[i], now, cb) else entries[i])
  }

  /** The invocations of a task run over the first `n` slots: each due slot once, in table order. */
  function TaskCalls(entries: seq<Entry>, now: Time32, n: nat): seq<Call>
    requires n <= |entries|
  {
    if n == 0 then []
    else
      var e := entries[n - 1];
      TaskCalls(entries, now, n - 1) + (if IsDue(e, now) then [Call(e.callback, e.trigger, e.arg)] else [])
  }

  /** The task runs at most once per millisecond. */
  predicate IsThrottled(t: Table, now: Time32) { Diff32(now, t.last) <= 0 }

  function Task(t: Table, now: Time32, cb: Callbacks): Table {
    if IsThrottled(t, now) then t
    else t.(entries := TaskEntries(t.entries, now, cb, |t.entries|), last := now)
  }

  /** What the task invokes. */
  function CallsOf(t: Table, now: Time32): seq<Call> {
    if IsThrottled(t, now) then [] else TaskCalls(t.entries, now, |t.entries|)
  }

  // ---------------------------------------------------------------- every sequence of operations

  /** `Elsewhere` is an allocation in another table, which shares the counter. */
  datatype Op =
    | DeferOp(now: Time32, delay: Time32, callback: nat, arg: int)
    | ExtendOp(token: Token, now: Time32, delay: Time32)
    | CancelOp(token: Token)
    | TaskOp(now: Time32, cb: Callbacks)
    | Elsewhere(current: Token)

  function Apply(t: Table, op: Op): Table {
    match op
    case DeferOp(now, delay, callback, arg) => Defer(t, now, delay, callback, arg).0
    case ExtendOp(token, now, delay) => Extend(t, token, now, delay).0
    case CancelOp(token) => Cancel(t, token).0
    case TaskOp(now, cb) => Task(t, now, cb)
    case Elsewhere(current) => t.(current := current)
  }

  function RunOps(t: Table, ops: seq<Op>): Table {
    if ops == [] then t else Apply(RunOps(t, ops[..|ops| - 1]), ops[|ops| - 1])
  }

  /** All invocations over a run. */
  function RunCalls(t: Table, ops: seq<Op>): seq<Call> {
    if ops == [] then []
    else
      var before, op := ops[..|ops| - 1], ops[|ops| - 1];
      RunCalls(t, before) + (if op.TaskOp? then CallsOf(RunOps(t, before), op.now) else [])
  }

  /** No two live slots share a token. */
  predicate DistinctTokens(entries: seq<Entry>) {
    forall i, j :: 0 <= i < j < |entries| && entries[i].token != INVALID ==> entries[i].token != entries[j].token
  }

  lemma {:induction false} ApplyKeepsDistinct(t: Table, op: Op)
    requires DistinctTokens(t.entries)
    ensures DistinctTokens(Apply(t, op).entries) && |Apply(t, op).entries| == |t.entries|
  {
    AllocateExactly(t);
    if op.TaskOp? {
      assert forall i :: 0 <= i < |t.entries| ==>
        var token := Visit(t.entries[i], op.now, op.cb).token; token == t.entries[i].token || token == INVALID;
    }
  }

  /**
   * Live tokens stay pairwise distinct through every sequence of operations,
   * whatever other tables do to the shared counter.
   */
  lemma {:induction false} RunKeepsDistinct(size: nat, current: Token, ops: seq<Op>)
    ensures var t := RunOps(Table(seq(size, _ => FREE), current, 0), ops);
      DistinctTokens(t.entries) && |t.entries| == size
  {
    if ops != [] {
      RunKeepsDistinct(size, current, ops[..|ops| - 1]);
      ApplyKeepsDistinct(RunOps(Table(seq(size, _ => FREE), current, 0), ops[..|ops| - 1]), ops[|ops| - 1]);
    }
  }

  /** In a table of at most 255 slots, a valid request fails only when no slot is free. */
  lemma {:induction false} DeferSucceeds(t: Table, now: Time32, delay: Time32, callback: nat, arg: int)
    requires |t.entries| <= 255 && delay > 0 && callback != 0
    ensures var (t', token) := Defer(t, now, delay, callback, arg);
      if exists i :: 0 <= i < |t.entries| && t.entries[i].token == INVALID
      then CanBeUsed(t.entries, token) && IsUsed(t'.entries, token)
      else token == INVALID && t' == t
  {
    var k := Find(t.entries, INVALID, 0);
    AllocateExactly(t);
    if k < |t.entries| {
      AllocateSucceeds(t, k);
      var t' := Defer(t, now, delay, callback, arg).0;
      assert t'.entries[k].token == Allocate(t);
    }
  }

  /** A request without a delay or without a callback is refused, and changes nothing. */
  lemma {:induction false} DeferRefuses(t: Table, now: Time32, delay: Time32, callback: nat, arg: int)
    requires delay == 0 || callback == 0
    ensures Defer(t, now, delay, callback, arg) == (t, 0)
  {
  }

  /** A request that succeeds fills the first free slot, due after the delay, and no other. */
  lemma {:induction false} DeferFills(t: Table, now: Time32, delay: Time32, callback: nat, arg: int, k: nat)
    requires var (t', token) := Defer(t, now, delay, callback, arg); token != 0
    requires k < |t.entries| && t.entries[k].token == 0 && forall j :: 0 <= j < k ==> t.entries[j].token != 0
    ensures var (t', token) := Defer(t, now, delay, callback, arg);
      t'.entries == t.entries[k := Entry(token, (now + delay) % 0x1_0000_0000, callback, arg)]
  {
  }

  /** A token just given out finds its own slot again: cancelling it undoes the request. */
  lemma {:induction false} CancelUndoesDefer(t: Table, now: Time32, delay: Time32, callback: nat, arg: int)
    requires var (t', token) := Defer(t, now, delay, callback, arg); token != INVALID
    requires forall i :: 0 <= i < |t.entries| && t.entries[i].token == INVALID ==> t.entries[i] == FREE
    ensures var (t', token) := Defer(t, now, delay, callback, arg);
      Cancel(t', token) == (t.(current := token), true)
  {
    AllocateExactly(t);
    var (t', token) := Defer(t, now, delay, callback, arg);
    var k := Find(t.entries, INVALID, 0);
    assert t'.entries[k].token == token;
    assert Find(t'.entries, token, 0) == k;
    assert t'.entries[k := FREE] == t.entries;
  }

  /** The token belongs to a live entry. */
  predicate IsLive(entries: seq<Entry>, token: Token) {
    token != 0 && exists i :: 0 <= i < |entries| && entries[i].token == token
  }

  /** Extending succeeds exactly for a live token and a delay; then only that entry's deadline is new. */
  lemma {:induction false} ExtendSucceeds(t: Table, token: Token, now: Time32, delay: Time32)
    requires DistinctTokens(t.entries)
    ensures var (t', ok) := Extend(t, token, now, delay);
      && (ok <==> delay > 0 && IsLive(t.entries, token))
      && |t'.entries| == |t.entries| && t'.current == t.current && t'.last == t.last
      && forall i :: 0 <= i < |t.entries| ==>
           t'.entries[i] == if ok && t.entries[i].token == token
                            then t.entries[i].(trigger := (now + delay) % 0x1_0000_0000) else t.entries[i]
  {
  }

  /** Cancelling succeeds exactly for a live token; then only that entry is freed. */
  lemma {:induction false} CancelSucceeds(t: Table, token: Token)
    requires DistinctTokens(t.entries)
    ensures var (t', ok) := Cancel(t, token);
      && (ok <==> IsLive(t.entries, token)) && !IsLive(t'.entries, token)
      && |t'.entries| == |t.entries| && t'.current == t.current && t'.last == t.last
      && forall i :: 0 <= i < |t.entries| && t.entries[i].token != token ==> t'.entries[i] == t.entries[i]
  {
  }
}
