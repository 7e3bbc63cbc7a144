/**
 * The tap/hold resolver as the firmware runs it: a tapping key and an eight-slot
 * ring with head and tail indices, updated in place.  Every method is proved to
 * do what the functions of TapHold say.
 */
module TapHoldRing {
  import opened KeyEvents
  import opened Actions
  import opened TapHold

  const N := WAITING_BUFFER_SIZE

  /** The slot `i` places after slot `tail`, counting round the ring. */
  function Slot(tail: nat, i: nat): (k: nat)
    requires tail < N && i <= N
    ensures k < N && k == (tail + i) % N
  {
    if tail + i < N then tail + i else tail + i - N
  }

  /** Number of slots in use; one slot always stays free. */
  function Used(head: nat, tail: nat): (n: nat)
    requires head < N && tail < N
    ensures n < N && Slot(tail, n) == head
  {
    if head >= tail then head - tail else head + N - tail
  }

  /** The slots from tail to head, oldest first. */
  function RingOf(slots: seq<Record>, head: nat, tail: nat): (r: seq<Record>)
    requires |slots| == N && head < N && tail < N
    ensures |r| == Used(head, tail)
    ensures forall i :: 0 <= i < |r| ==> r[i] == slots[Slot(tail, i)]
  {
    seq(Used(head, tail), i requires 0 <= i < Used(head, tail) => slots[Slot(tail, i)])
  }

  lemma {:induction false} RingPush(slots: seq<Record>, head: nat, tail: nat, r: Record)
    requires |slots| == N && head < N && tail < N && Slot(head, 1) != tail
    ensures RingOf(slots[head := r], Slot(head, 1), tail) == RingOf(slots, head, tail) + [r]
  {
  }

  lemma {:induction false} RingPop(slots: seq<Record>, head: nat, tail: nat)
    requires |slots| == N && head < N && tail < N && head != tail
    ensures RingOf(slots, head, Slot(tail, 1)) == RingOf(slots, head, tail)[1..]
  {
  }

  lemma {:induction false} RingPut(slots: seq<Record>, head: nat, tail: nat, i: nat, r: Record)
    requires |slots| == N && head < N && tail < N && i < Used(head, tail)
    ensures RingOf(slots[Slot(tail, i) := r], head, tail) == RingOf(slots, head, tail)[i := r]
  {
  }

  class Resolver {
    const cfg: Config
    const buffer: array<Record>
    var tappingKey: Record
    var head: nat
    var tail: nat
    var log: seq<Out>

    ghost predicate Valid()
      reads this
    {
      buffer.Length == N && head < N && tail < N
    }

    /** The abstract state this object stands for. */
    function Abs(): State
      requires Valid()
      reads this, buffer
    {
      State(tappingKey, RingOf(buffer[..], head, tail), log)
    }

    constructor (cfg: Config)
      ensures Valid() && fresh(buffer) && this.cfg == cfg && Abs() == INITIAL
    {
      this.cfg := cfg;
      buffer := new Record[N](_ => NO_RECORD);
      tappingKey, head, tail, log := NO_RECORD, 0, 0, [];
    }

    method Enq(record: Record) returns (ok: bool)
      requires Valid()
      modifies this`head, buffer
      ensures Valid()
      ensures !ok <==> !record.event.IsTick() && |old(Abs()).ring| + 1 >= N
      ensures ok && !record.event.IsTick() ==> Abs() == old(Abs()).(ring := old(Abs()).ring + [record])
      ensures !ok || record.event.IsTick() ==> Abs() == old(Abs())
    {
      if record.event.IsTick() {
        return true;
      }
      if Slot(head, 1) == tail {
        return false;
      }
      RingPush(buffer[..], head, tail, record);
      buffer[head] := record;
      head := Slot(head, 1);
      return true;
    }

    method IsTyped(event: Event) returns (typed: bool)
      requires Valid()
      ensures typed == Typed(Abs().ring, event)
    {
      var i := tail;
      ghost var k := 0;
      while i != head
        invariant 0 <= k <= Used(head, tail) && i == Slot(tail, k)
        invariant forall j :: 0 <= j < k ==>
          !(Abs().ring[j].event.key == event.key && Abs().ring[j].event.pressed != event.pressed)
        decreases Used(head, tail) - k
      {
        assert k < Used(head, tail);
        assert Abs().ring[k] == buffer[i];
        if event.key == buffer[i].event.key && event.pressed != buffer[i].event.pressed {
          return true;
        }
        i, k := Slot(i, 1), k + 1;
      }
      return false;
    }

    method Scan()
      requires Valid()
      modifies this`tappingKey, this`log, buffer
      ensures Valid() && Abs() == ScanTap(cfg, old(Abs()))
    {
      if tappingKey.tap.count > 0 || !tappingKey.event.pressed {
        return;
      }
      var i := tail;
      ghost var k := 0;
      while i != head
        invariant 0 <= k <= Used(head, tail) && i == Slot(tail, k)
        invariant Valid() && Abs() == old(Abs())
        invariant FirstCandidate(cfg, Abs(), k) == FirstCandidate(cfg, Abs(), 0)
        decreases Used(head, tail) - k
      {
        var candidate := buffer[i];
        assert Abs().ring[k] == candidate;
        if !candidate.event.IsTick() && candidate.event.key == tappingKey.event.key && !candidate.event.pressed
           && TimerDiff16(candidate.event.time, tappingKey.event.time) < cfg.term(log, tappingKey)
        {
          assert IsTapCandidate(cfg, Abs(), candidate);
          RingPut(buffer[..], head, tail, k, SetTapCount(candidate, 1));
          tappingKey := SetTapCount(tappingKey, 1);
          buffer[i] := SetTapCount(candidate, 1);
          log := log + [Handed(tappingKey)];
          return;
        }
        i, k := Slot(i, 1), k + 1;
      }
    }

    /** The branches for a tapping key that is down, within its term and undecided. */
    method ProcessUndecided(keyp: Record) returns (keyp': Record, consumed: bool)
      requires Valid()
      modifies this`tappingKey, this`log
      ensures Valid() && StepResult(Abs(), keyp', consumed) == StepUndecided(cfg, old(Abs()), keyp)
    {
      keyp', consumed := keyp, false;
      if tappingKey.event.key == keyp.event.key && !keyp.event.pressed {
        tappingKey := SetTapCount(tappingKey, 1);
        log := log + [Handed(tappingKey)];
        keyp' := keyp.(tap := tappingKey.tap);
        return;
      }
      var typed := IsTyped(keyp.event);
      if !keyp.event.pressed && typed && cfg.permissiveHold(log, tappingKey) {
        log := log + [Handed(tappingKey)];
        tappingKey := NO_RECORD;
      } else if !keyp.event.pressed && !typed {
        if !IsRetained(cfg.actionOf(log, keyp.event.key), keyp.tap.count) {
          log := log + [LetThrough(keyp)];
          consumed := true;
        }
      } else if keyp.event.pressed {
        tappingKey := tappingKey.(tap := tappingKey.tap.(interrupted := true));
        if cfg.holdOnOtherKeyPress(log, tappingKey) {
          log := log + [Handed(tappingKey)];
          tappingKey := NO_RECORD;
        }
      }
    }

    /** The branches for a tapping key that is down and already counts as a tap. */
    method ProcessTapped(keyp: Record, inTerm: bool) returns (keyp': Record)
      requires Valid()
      modifies this`tappingKey, this`log, buffer
      ensures Valid() && StepResult(Abs(), keyp', true) == StepTapped(cfg, old(Abs()), keyp, inTerm)
    {
      keyp' := keyp;
      if tappingKey.event.key == keyp.event.key && !keyp.event.pressed {
        keyp' := keyp.(tap := tappingKey.tap);
        log := log + [Handed(keyp')];
        tappingKey := if inTerm then keyp' else NO_RECORD;
      } else if !keyp.event.IsTick() && IsTapAction(cfg.actionOf(log, keyp.event.key)) && keyp.event.pressed {
        if tappingKey.tap.count > 1 {
          log := log + [Synthetic(SyntheticRelease(tappingKey, keyp.event.time))];
        }
        tappingKey := keyp;
        Scan();
      } else {
        log := log + [Handed(keyp)];
      }
    }

    /** The branches for a tapping key that was tapped and released within its term. */
    method ProcessReleased(keyp: Record) returns (keyp': Record)
      requires Valid()
      modifies this`tappingKey, this`log, buffer
      ensures Valid() && StepResult(Abs(), keyp', true) == StepReleased(cfg, old(Abs()), keyp)
    {
      keyp' := keyp;
      if keyp.event.pressed {
        if tappingKey.event.key == keyp.event.key {
          if TimerDiff16(keyp.event.time, tappingKey.event.time) < cfg.quickTerm(log, tappingKey)
             && !tappingKey.tap.interrupted && tappingKey.tap.count > 0
          {
            keyp' := keyp.(tap := tappingKey.tap);
            if keyp'.tap.count < 15 {
              keyp' := SetTapCount(keyp', keyp'.tap.count + 1);
            }
            log := log + [Handed(keyp')];
            tappingKey := keyp';
          } else {
            tappingKey := keyp;
          }
        } else if !keyp.event.IsTick() && IsTapAction(cfg.actionOf(log, keyp.event.key)) {
          tappingKey := keyp;
          Scan();
        } else {
          tappingKey := tappingKey.(tap := tappingKey.tap.(interrupted := true));
          log := log + [Handed(keyp)];
        }
      } else {
        log := log + [Handed(keyp)];
      }
    }

    /** One decision.  `keyp'` is the record as the callee leaves it. */
    method ProcessTapping(keyp: Record) returns (keyp': Record, consumed: bool)
      requires Valid()
      modifies this`tappingKey, this`log, buffer
      ensures Valid() && StepResult(Abs(), keyp', consumed) == Step(cfg, old(Abs()), keyp)
    {
      keyp', consumed := keyp, true;
      var tick := keyp.event.IsTick();
      if tappingKey.event.IsTick() {
        if tick {
        } else if keyp.event.pressed && IsTapAction(cfg.actionOf(log, keyp.event.key)) {
          tappingKey := keyp;
          Scan();
        } else {
          log := log + [Handed(keyp)];
        }
        return;
      }
      var inTerm := TimerDiff16(keyp.event.time, tappingKey.event.time) < cfg.term(log, tappingKey);
      if tappingKey.event.pressed {
        if inTerm {
          if tick {
          } else if tappingKey.tap.count == 0 {
            keyp', consumed := ProcessUndecided(keyp);
          } else {
            keyp' := ProcessTapped(keyp, true);
          }
        } else if tappingKey.tap.count == 0 {
          log := log + [Handed(tappingKey)];
          tappingKey := NO_RECORD;
          consumed := false;
        } else if !tick {
          keyp' := ProcessTapped(keyp, false);
        }
      } else if inTerm {
        if !tick {
          keyp' := ProcessReleased(keyp);
        }
      } else {
        tappingKey := NO_RECORD;
        consumed := false;
      }
    }

    /** The entry point: offer the record, postpone it if need be, and drain the ring. */
    method ActionTappingProcess(record: Record)
      requires Valid()
      modifies this, buffer
      ensures Valid() && Abs() == Process(cfg, old(Abs()), record)
    {
      var record', consumed := ProcessTapping(record);
      if !consumed {
        var lost := Pending(Abs()) + [record'.event];
        var ok := Enq(record');
        if !ok {
          head, tail := 0, 0;
          tappingKey := NO_RECORD;
          log := log + [Overflow(lost)];
        }
      }
      assert Abs() == Admit(cfg, old(Abs()), record);
      while tail != head
        invariant Valid() && Drain(cfg, Abs()) == Process(cfg, old(Abs()), record)
        decreases Used(head, tail)
      {
        ghost var s := Abs();
        assert s.ring[0] == buffer[tail];
        var waiting, done := ProcessTapping(buffer[tail]);
        assert Slot(tail, 0) == tail;
        if done {
          RingPop(buffer[..], head, tail);
          tail := Slot(tail, 1);
        } else {
          RingPut(buffer[..], head, tail, 0, waiting);
          buffer[tail] := waiting;
          break;
        }
      }
    }
  }
}
