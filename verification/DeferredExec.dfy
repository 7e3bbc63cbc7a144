/**
 * The deferred executor as the firmware runs it: a table changed in place by
 * search loops, and a token counter that wraps.  Every method is proved to do what
 * Deferred says.
 */
module DeferredExec {
  import opened Deferred

  /** The token from which `left` further steps lead to the one before `first`. */
  function Back(first: Token, left: nat): Token
    requires left < TOKENS
  {
    if first - 1 - left >= 0 then first - 1 - left else first - 1 - left + TOKENS
  }

  lemma {:induction false} FindTokenStep(entries: seq<Entry>, token: Token, n: nat)
    requires n > 0
    ensures FindToken(entries, token, n)
            == if CanBeUsed(entries, After(token)) then After(token) else FindToken(entries, After(token), n - 1)
  {
  }

  /** The counter comes back to where it began when no steps are left, and not before. */
  lemma {:induction false} BackStep(first: Token, left: nat)
    requires left < TOKENS
    ensures After(Back(first, left)) == if left == 0 then first else Back(first, left - 1)
    ensures left > 0 ==> Back(first, left - 1) != first
  {
  }

  lemma {:induction false} AllocateStep(t: Table, left: nat)
    requires left == TOKENS - 1
    ensures Allocate(t) == if CanBeUsed(t.entries, After(t.current)) then After(t.current)
                           else FindToken(t.entries, After(t.current), left)
  {
    FindTokenStep(t.entries, t.current, left + 1);
  }

  class Executor {
    const table: array<Entry>
    const callbacks: Callbacks
    var currentToken: Token
    var lastExecutionTime: Time32
    var calls: seq<Call>

    function Abs(): Table
      reads this, table
    {
      Table(table[..], currentToken, lastExecutionTime)
    }

    constructor (size: nat, callbacks: Callbacks)
      ensures fresh(table) && this.callbacks == callbacks && calls == []
      ensures Abs() == Table(seq(size, _ => FREE), 0, 0)
    {
      table := new Entry[size](_ => FREE);
      this.callbacks := callbacks;
      currentToken, lastExecutionTime, calls := 0, 0, [];
      new;
      assert table[..] == seq(size, _ => FREE);
    }

    method TokenCanBeUsed(token: Token) returns (ok: bool)
      ensures ok == CanBeUsed(table[..], token)
    {
      if token == INVALID {
        return false;
      }
      for i := 0 to table.Length
        invariant forall j :: 0 <= j < i ==> table[j].token != token
      {
        if table[i].token == token {
          assert table[..][i].token == token;
          return false;
        }
      }
      return true;
    }

    /** The search ends although the counter wraps: at the latest when it is back where it began. */
    method AllocateToken() returns (token: Token)
      modifies this`currentToken
      ensures token == Allocate(old(Abs())) && currentToken == CurrentAfter(old(Abs()))
    {
      var first := After(currentToken);
      currentToken := first;
      ghost var entries, left, goal := table[..], TOKENS - 1, Allocate(old(Abs()));
      AllocateStep(old(Abs()), left);
      var ok := TokenCanBeUsed(currentToken);
      while !ok
        invariant 0 <= left < TOKENS && currentToken == Back(first, left)
        invariant ok == CanBeUsed(entries, currentToken)
        invariant goal == if ok then currentToken else FindToken(entries, currentToken, left)
        decreases left, !ok
      {
        BackStep(first, left);
        if left > 0 {
          FindTokenStep(entries, currentToken, left);
          left := left - 1;
        }
        currentToken := After(currentToken);
        if currentToken == first {
          return INVALID;
        }
        ok := TokenCanBeUsed(currentToken);
      }
      return currentToken;
    }

    method DeferExec(now: Time32, delay: Time32, callback: nat, arg: int) returns (token: Token)
      modifies this`currentToken, table
      ensures (Abs(), token) == Defer(old(Abs()), now, delay, callback, arg)
    {
      if table.Length == 0 || delay == 0 || callback == 0 {
        return INVALID;
      }
      for i := 0 to table.Length
        invariant Abs() == old(Abs()) && forall j :: 0 <= j < i ==> table[j].token != INVALID
      {
        if table[i].token == INVALID {
          assert Find(table[..], INVALID, 0) == i;
          AllocateExactly(Abs());
          token := AllocateToken();
          if token != INVALID {
            table[i] := Entry(currentToken, Add32(now, delay), callback, arg);
          }
          return;
        }
      }
      return INVALID;
    }

    method ExtendDeferredExec(token: Token, now: Time32, delay: Time32) returns (ok: bool)
      modifies table
      ensures (Abs(), ok) == Extend(old(Abs()), token, now, delay)
    {
      if table.Length == 0 || delay == 0 || token == INVALID {
        return false;
      }
      for i := 0 to table.Length
        invariant Abs() == old(Abs()) && forall j :: 0 <= j < i ==> table[j].token != token
      {
        if table[i].token == token {
          assert Find(table[..], token, 0) == i;
          table[i] := table[i].(trigger := Add32(now, delay));
          return true;
        }
      }
      return false;
    }

    method CancelDeferredExec(token: Token) returns (ok: bool)
      modifies table
      ensures (Abs(), ok) == Cancel(old(Abs()), token)
    {
      if table.Length == 0 || token == INVALID {
        return false;
      }
      for i := 0 to table.Length
        invariant Abs() == old(Abs()) && forall j :: 0 <= j < i ==> table[j].token != token
      {
        if table[i].token == token {
          assert Find(table[..], token, 0) == i;
          table[i] := FREE;
          return true;
        }
      }
      return false;
    }

    /** At most one run per millisecond; each run invokes every due callback once. */
    method ExecTask(now: Time32)
      modifies this`lastExecutionTime, this`calls, table
      ensures Abs() == Task(old(Abs()), now, callbacks) && calls == old(calls) + CallsOf(old(Abs()), now)
    {
      if Diff32(now, lastExecutionTime) > 0 {
        lastExecutionTime := now;
        ghost var was := table[..];
        for i := 0 to table.Length
          invariant table[..] == TaskEntries(was, now, callbacks, i)
          invariant calls == old(calls) + TaskCalls(was, now, i) && lastExecutionTime == now
        {
          var entry := table[i];
          assert entry == was[i];
          if entry.token != INVALID && Diff32(entry.trigger, now) <= 0 {
            calls := calls + [Call(entry.callback, entry.trigger, entry.arg)];
            var delay := callbacks(entry.callback, entry.trigger, entry.arg);
            if delay > 0 {
              table[i] := entry.(trigger := Add32(entry.trigger, delay));
            } else {
              table[i] := FREE;
            }
          }
          assert table[..] == TaskEntries(was, now, callbacks, i)[i := Visit(was[i], now, callbacks)];
        }
      } else {
        assert calls + [] == calls;
      }
    }
  }
}
