/**
 * Every press is released as what it was pressed: as a tap if it was processed as
 * a tap, as a hold if it was processed as a hold.  This is what record processing
 * needs of the resolver for nothing to get stuck.
 */
module TapHoldPairs {
  import opened KeyEvents
  import opened Actions
  import opened TapHold
  import opened TapHoldLedger
  import opened TapHoldOrder

  // ---------------------------------------------------------------- what the log says

  /** The keys whose last processed record is a press, each with whether it was a tap. */
  function DownIn(log: seq<Out>): map<KeyPos, bool> {
    if log == [] then map[]
    else
      var down, o := DownIn(log[..|log| - 1]), log[|log| - 1];
      if o.Overflow? then down else AfterRecord(down, o.record)
  }

  function AfterRecord(down: map<KeyPos, bool>, r: Record): map<KeyPos, bool> {
    if r.event.pressed then down[r.event.key := r.tap.count > 0] else down - {r.event.key}
  }

  /** A press is of a key that is up; a release of a key that is down is as the tap or hold it was. */
  predicate Fitting(down: map<KeyPos, bool>, r: Record) {
    if r.event.pressed then r.event.key !in down
    else r.event.key in down ==> down[r.event.key] == (r.tap.count > 0)
  }

  predicate FittingOut(down: map<KeyPos, bool>, o: Out) {
    o.Overflow? || (Fitting(down, o.record) && (o.Synthetic? ==> !o.record.event.pressed))
  }

  predicate Paired(log: seq<Out>) {
    log == [] || (Paired(log[..|log| - 1]) && FittingOut(DownIn(log[..|log| - 1]), log[|log| - 1]))
  }

  lemma {:induction false} PairedGrows(log: seq<Out>, o: Out)
    requires Paired(log) && !o.Overflow? && FittingOut(DownIn(log), o)
    ensures Paired(log + [o]) && DownIn(log + [o]) == AfterRecord(DownIn(log), o.record)
  {
    assert (log + [o])[..|log|] == log;
  }

  // ---------------------------------------------------------------- what is waiting

  /** Pressed and already processed as a tap. */
  predicate IsTapDown(t: Record) { !t.event.IsTick() && t.event.pressed && t.tap.count > 0 }

  predicate FirstOfKey(q: seq<Record>, i: nat)
    requires i < |q|
  {
    forall j :: 0 <= j < i ==> q[j].event.key != q[i].event.key
  }

  predicate Tagged(q: seq<Record>, key: KeyPos) {
    exists i :: 0 <= i < |q| && q[i].event.key == key && q[i].tap.count > 0
  }

  /** A tagged record is the first waiting of its key, and its key is down as a tap. */
  predicate TagIsOwn(down: map<KeyPos, bool>, q: seq<Record>, i: nat)
    requires i < |q|
  {
    q[i].event.key in down && down[q[i].event.key] && FirstOfKey(q, i)
  }

  /**
   * How the keys down, the tapping key and the waiting records fit together: the
   * release of a key down as a tap is already tagged, or will be by the tapping
   * key; no other waiting record is tagged.
   */
  ghost predicate Matched(down: map<KeyPos, bool>, t: Record, q: seq<Record>) {
    && (IsTapDown(t) ==> t.event.key in down && down[t.event.key])
    && (IsTapDown(t) && t.tap.count > 1 ==> !Tagged(q, t.event.key))
    && (forall i :: 0 <= i < |q| && q[i].tap.count > 0 ==> TagIsOwn(down, q, i))
    && (forall key :: key in down && down[key] ==>
          Tagged(q, key) || (IsTapDown(t) && t.tap.count > 1 && t.event.key == key))
  }

  predicate SameTap(t: Record, t': Record) { t'.event == t.event && t'.tap.count == t.tap.count }

  /** The tapping key as far as Matched is concerned is unchanged. */
  predicate SameRole(t: Record, t': Record) {
    SameTap(t, t') || (!IsTapDown(t) && !IsTapDown(t'))
  }

  lemma {:induction false} RoleKept(down: map<KeyPos, bool>, t: Record, t': Record, q: seq<Record>)
    requires Matched(down, t, q) && SameRole(t, t')
    ensures Matched(down, t', q)
  {
  }

  lemma {:induction false} HoldAdded(down: map<KeyPos, bool>, t: Record, q: seq<Record>, key: KeyPos)
    requires Matched(down, t, q) && key !in down
    ensures Matched(down[key := false], t, q)
  {
    var down' := down[key := false];
    forall i | 0 <= i < |q| && q[i].tap.count > 0
      ensures TagIsOwn(down', q, i)
    {
      assert TagIsOwn(down, q, i);
    }
  }

  /** A key processed as a tap because its release waits, which gets tagged. */
  lemma {:induction false} FirstTapAdded(
      down: map<KeyPos, bool>, t: Record, q: seq<Record>, i: nat, r: Record, t': Record)
    requires Matched(down, t, q) && !IsTapDown(t) && t'.event.key !in down && IsTapDown(t') && t'.tap.count == 1
    requires i < |q| && q[i].event.key == t'.event.key && FirstOfKey(q, i)
    requires r.event == q[i].event && r.tap.count > 0
    ensures Matched(down[t'.event.key := true], t', q[i := r])
  {
    var key := t'.event.key;
    var down', q' := down[key := true], q[i := r];
    forall j | 0 <= j < |q'| && q'[j].tap.count > 0
      ensures TagIsOwn(down', q', j)
    {
      if j != i {
        assert TagIsOwn(down, q, j);
      }
    }
    forall k | k in down' && down'[k]
      ensures Tagged(q', k)
    {
      if k == key {
        assert q'[i].event.key == k && q'[i].tap.count > 0;
      } else {
        var j :| 0 <= j < |q| && q[j].event.key == k && q[j].tap.count > 0;
        assert q'[j].event.key == k && q'[j].tap.count > 0;
      }
    }
  }

  /** A key processed as a further tap at once. */
  lemma {:induction false} NextTapAdded(down: map<KeyPos, bool>, t: Record, q: seq<Record>, t': Record)
    requires Matched(down, t, q) && !IsTapDown(t) && t'.event.key !in down && IsTapDown(t') && t'.tap.count > 1
    ensures Matched(down[t'.event.key := true], t', q)
  {
    var key := t'.event.key;
    var down' := down[key := true];
    forall i | 0 <= i < |q| && q[i].tap.count > 0
      ensures TagIsOwn(down', q, i)
    {
      assert TagIsOwn(down, q, i);
    }
  }

  function Without(q: seq<Record>, i: nat): (q': seq<Record>)
    requires i < |q|
    ensures |q'| == |q| - 1
    ensures forall j :: 0 <= j < i ==> q'[j] == q[j]
    ensures forall j :: i <= j < |q'| ==> q'[j] == q[j + 1]
  {
    q[..i] + q[i + 1..]
  }

  /** A waiting release that is processed fits, if it is the first waiting of its key. */
  lemma {:induction false} ReleaseFits(down: map<KeyPos, bool>, t: Record, q: seq<Record>, i: nat)
    requires Matched(down, t, q) && i < |q| && !q[i].event.pressed && FirstOfKey(q, i)
    requires IsTapDown(t) ==> t.event.key != q[i].event.key
    ensures Fitting(down, q[i])
  {
    assert q[i].tap.count > 0 ==> TagIsOwn(down, q, i);
    assert forall j :: 0 <= j < |q| && q[j].tap.count > 0 ==> TagIsOwn(down, q, j);
  }

  /** And what is left still matches. */
  lemma {:induction false} ReleaseTaken(down: map<KeyPos, bool>, t: Record, q: seq<Record>, i: nat, t': Record)
    requires Matched(down, t, q) && i < |q| && FirstOfKey(q, i)
    requires if IsTapDown(t) && t.event.key == q[i].event.key then !IsTapDown(t') else SameRole(t, t')
    ensures Matched(down - {q[i].event.key}, t', Without(q, i))
  {
    var key := q[i].event.key;
    var down', q' := down - {key}, Without(q, i);
    forall j | 0 <= j < |q'| && q'[j].tap.count > 0
      ensures TagIsOwn(down', q', j)
    {
      var j0 := if j < i then j else j + 1;
      assert TagIsOwn(down, q, j0);
      forall m | 0 <= m < j
        ensures q'[m].event.key != q'[j].event.key
      {
        assert q'[m] == q[if m < i then m else m + 1];
      }
    }
    forall k | k in down' && down'[k]
      ensures Tagged(q', k) || (IsTapDown(t') && t'.tap.count > 1 && t'.event.key == k)
    {
      if Tagged(q, k) {
        var j :| 0 <= j < |q| && q[j].event.key == k && q[j].tap.count > 0;
        var j' := if j < i then j else j - 1;
        assert q'[j'] == q[j];
      }
    }
  }

  /** Taking an untagged record from the front. */
  lemma {:induction false} PressTaken(down: map<KeyPos, bool>, t: Record, q: seq<Record>)
    requires Matched(down, t, q) && q != [] && q[0].tap.count == 0
    ensures Matched(down, t, q[1..])
  {
    var q' := q[1..];
    forall j | 0 <= j < |q'| && q'[j].tap.count > 0
      ensures TagIsOwn(down, q', j)
    {
      assert TagIsOwn(down, q, j + 1);
      forall m | 0 <= m < j
        ensures q'[m].event.key != q'[j].event.key
      {
        assert q'[m] == q[m + 1];
      }
    }
    forall k | k in down && down[k]
      ensures Tagged(q', k) || (IsTapDown(t) && t.tap.count > 1 && t.event.key == k)
    {
      if Tagged(q, k) {
        var j :| 0 <= j < |q| && q[j].event.key == k && q[j].tap.count > 0;
        assert q'[j - 1] == q[j];
      }
    }
  }

  /** Another tap begins: a first tap has its release waiting, a further one was released. */
  lemma {:induction false} TapLeft(down: map<KeyPos, bool>, t: Record, q: seq<Record>)
    requires Matched(down, t, q) && IsTapDown(t)
    ensures t.tap.count > 1 ==> Matched(down - {t.event.key}, NO_RECORD, q)
    ensures t.tap.count == 1 ==> Matched(down, NO_RECORD, q)
  {
    if t.tap.count > 1 {
      var down' := down - {t.event.key};
      forall i | 0 <= i < |q| && q[i].tap.count > 0
        ensures TagIsOwn(down', q, i)
      {
        assert TagIsOwn(down, q, i);
        assert q[i].event.key != t.event.key;
      }
    }
  }

  // ---------------------------------------------------------------- what a decision can do

  /** Nothing, except perhaps noting an interruption. */
  predicate Stays(s: State, r: Record, res: StepResult) {
    && res.record == r && res.state.ring == s.ring && res.state.log == s.log
    && SameTap(s.tapping, res.state.tapping) && (res.consumed ==> r.event.IsTick())
  }

  /** The undecided key is processed as a hold. */
  predicate GivesHold(s: State, r: Record, res: StepResult) {
    && IsUndecided(s) && res.record == r && !res.consumed && res.state.ring == s.ring
    && res.state.tapping == NO_RECORD && |res.state.log| == |s.log| + 1 && res.state.log[..|s.log|] == s.log
    && res.state.log[|s.log|].Handed? && SameTap(s.tapping, res.state.log[|s.log|].record)
  }

  /** The undecided key is processed as a tap, and its release tagged. */
  predicate TapsFirst(s: State, r: Record, res: StepResult) {
    var t := SetTapCount(s.tapping, 1);
    && IsUndecided(s) && IsTappingRelease(s, r) && !r.event.IsTick()
    && res == StepResult(State(t, s.ring, s.log + [Handed(t)]), r.(tap := t.tap), false)
  }

  predicate Forgets(s: State, r: Record, res: StepResult) {
    !IsUndecided(s) && !IsTapDown(s.tapping) && res == StepResult(s.(tapping := NO_RECORD), r, false)
  }

  predicate Overtakes(s: State, r: Record, res: StepResult) {
    && IsUndecided(s) && !r.event.pressed && r.event.key != s.tapping.event.key && !Typed(s.ring, r.event)
    && res == StepResult(Hand(s, LetThrough(r)), r, true)
  }

  /** The record is processed as it is. */
  predicate Passes(s: State, r: Record, res: StepResult) {
    && !IsUndecided(s) && !(IsTapDown(s.tapping) && IsTappingRelease(s, r))
    && res == StepResult(State(res.state.tapping, s.ring, s.log + [Handed(r)]), r, true)
    && SameRole(s.tapping, res.state.tapping)
  }

  /** The release of the key that was tapped. */
  predicate EndsTap(s: State, r: Record, res: StepResult) {
    var r' := r.(tap := s.tapping.tap);
    && IsTapDown(s.tapping) && IsTappingRelease(s, r) && !IsTapDown(res.state.tapping)
    && res == StepResult(State(res.state.tapping, s.ring, s.log + [Handed(r')]), r', true)
  }

  /** A further tap of the same key. */
  predicate TapsAgain(s: State, r: Record, res: StepResult) {
    && !IsUndecided(s) && !IsTapDown(s.tapping) && r.event.pressed && !r.event.IsTick()
    && res.record.event == r.event && res.record.tap.count > 1
    && res == StepResult(State(res.record, s.ring, s.log + [Handed(res.record)]), res.record, true)
  }

  /** The log once a tap that goes on was ended by a made-up release. */
  function EndedTap(s: State, r: Record): seq<Out> {
    if IsTapDown(s.tapping) && s.tapping.tap.count > 1
    then s.log + [Synthetic(SyntheticRelease(s.tapping, r.event.time))] else s.log
  }

  /** The record becomes the tapping key, undecided. */
  predicate Begins(s: State, r: Record, res: StepResult) {
    && !IsUndecided(s) && r.event.pressed && !r.event.IsTick()
    && res == StepResult(State(r, s.ring, EndedTap(s, r)), r, true)
  }

  /** The record becomes the tapping key and at once a tap, for the release at `i`. */
  predicate BeginsTap(cfg: Config, s: State, r: Record, res: StepResult) {
    var s1 := State(r, s.ring, EndedTap(s, r));
    var i := FirstCandidate(cfg, s1, 0);
    && !IsUndecided(s) && r.event.pressed && !r.event.IsTick() && i < |s.ring|
    && res == StepResult(ScanTap(cfg, s1), r, true)
  }

  lemma {:induction false} ScanBegins(cfg: Config, s: State, r: Record, res: StepResult)
    requires !IsUndecided(s) && r.event.pressed && !r.event.IsTick() && r.tap.count == 0
    requires res == StepResult(ScanTap(cfg, State(r, s.ring, EndedTap(s, r))), r, true)
    ensures Begins(s, r, res) || BeginsTap(cfg, s, r, res)
  {
  }

  /** Every decision does one of these. */
  lemma {:induction false} StepIsOneOf(cfg: Config, s: State, r: Record, res: StepResult)
    requires Inv(s) && IsFresh(r) && res == Step(cfg, s, r)
    ensures || Stays(s, r, res) || GivesHold(s, r, res) || TapsFirst(s, r, res) || Forgets(s, r, res)
            || Overtakes(s, r, res) || Passes(s, r, res) || EndsTap(s, r, res) || TapsAgain(s, r, res)
            || Begins(s, r, res) || BeginsTap(cfg, s, r, res)
  {
    if IsIdle(s) {
      if !r.event.IsTick() && r.event.pressed && IsTapRecord(cfg, s, r) {
        ScanBegins(cfg, s, r, res);
      }
    } else if IsUndecided(s) {
      if WithinTappingTerm(cfg, s, r.event) && !r.event.IsTick() {
        UndecidedIsOneOf(cfg, s, r, res);
      }
    } else if s.tapping.event.pressed {
      if !r.event.IsTick() {
        TappedIsOneOf(cfg, s, r, WithinTappingTerm(cfg, s, r.event), res);
      }
    } else if WithinTappingTerm(cfg, s, r.event) && !r.event.IsTick() {
      ReleasedIsOneOf(cfg, s, r, res);
    }
  }

  lemma {:induction false} UndecidedIsOneOf(cfg: Config, s: State, r: Record, res: StepResult)
    requires IsUndecided(s) && !r.event.IsTick() && res == StepUndecided(cfg, s, r)
    ensures Stays(s, r, res) || GivesHold(s, r, res) || TapsFirst(s, r, res) || Overtakes(s, r, res)
  {
  }

  lemma {:induction false} TappedIsOneOf(cfg: Config, s: State, r: Record, inTerm: bool, res: StepResult)
    requires IsTapDown(s.tapping) && IsFresh(r) && !r.event.IsTick() && res == StepTapped(cfg, s, r, inTerm)
    ensures Passes(s, r, res) || EndsTap(s, r, res) || Begins(s, r, res) || BeginsTap(cfg, s, r, res)
  {
    if !IsTappingRelease(s, r) && IsTapRecord(cfg, s, r) && r.event.pressed {
      ScanBegins(cfg, s, r, res);
    }
  }

  lemma {:induction false} ReleasedIsOneOf(cfg: Config, s: State, r: Record, res: StepResult)
    requires !s.tapping.event.pressed && s.tapping.tap.count > 0 && IsFresh(r) && !r.event.IsTick()
    requires res == StepReleased(cfg, s, r)
    ensures || Passes(s, r, res) || TapsAgain(s, r, res) || Begins(s, r, res) || BeginsTap(cfg, s, r, res)
  {
    if r.event.pressed && s.tapping.event.key != r.event.key && IsTapRecord(cfg, s, r) {
      ScanBegins(cfg, s, r, res);
    }
  }

  // ---------------------------------------------------------------- decisions keep records matched

  ghost predicate Good(t: Record, log: seq<Out>, q: seq<Record>) { Paired(log) && Matched(DownIn(log), t, q) }

  lemma {:induction false} KeepsGood(s: State, r: Record, res: StepResult, q: seq<Record>)
    requires Good(s.tapping, s.log, q) && (IsUndecided(s) ==> s.tapping.event.key !in DownIn(s.log))
    requires Stays(s, r, res) || GivesHold(s, r, res) || Forgets(s, r, res)
    ensures Good(res.state.tapping, res.state.log, q)
  {
    var down := DownIn(s.log);
    if GivesHold(s, r, res) {
      var o := res.state.log[|s.log|];
      assert res.state.log == s.log + [o];
      PairedGrows(s.log, o);
      HoldAdded(down, s.tapping, q, s.tapping.event.key);
      RoleKept(down[s.tapping.event.key := false], s.tapping, NO_RECORD, q);
    } else {
      RoleKept(down, s.tapping, res.state.tapping, q);
    }
  }

  /** A first tap keeps records matched exactly when the release it is for is the first waiting of its key. */
  lemma {:induction false} TapsFirstExactly(s: State, r: Record, res: StepResult, q: seq<Record>, i: nat)
    requires Good(s.tapping, s.log, q) && s.tapping.event.key !in DownIn(s.log)
    requires TapsFirst(s, r, res) && i < |q| && q[i] == r
    ensures Good(res.state.tapping, res.state.log, q[i := res.record]) <==> FirstOfKey(q, i)
  {
    var t, q' := res.state.tapping, q[i := res.record];
    PairedGrows(s.log, Handed(t));
    if FirstOfKey(q, i) {
      FirstTapAdded(DownIn(s.log), s.tapping, q, i, res.record, t);
    } else {
      assert q'[i].tap.count > 0;
      var j :| 0 <= j < i && q[j].event.key == q[i].event.key;
      assert q'[j].event.key == q'[i].event.key;
    }
  }

  lemma {:induction false} OvertakesGood(s: State, r: Record, res: StepResult, q: seq<Record>, i: nat)
    requires Good(s.tapping, s.log, q) && Overtakes(s, r, res) && i < |q| && q[i] == r && FirstOfKey(q, i)
    ensures Good(res.state.tapping, res.state.log, Without(q, i))
  {
    var down := DownIn(s.log);
    ReleaseFits(down, s.tapping, q, i);
    PairedGrows(s.log, LetThrough(r));
    ReleaseTaken(down, s.tapping, q, i, s.tapping);
  }

  lemma {:induction false} PassesGood(s: State, r: Record, res: StepResult, q: seq<Record>)
    requires Good(s.tapping, s.log, q) && q != [] && q[0] == r && IsFresh(r) && Passes(s, r, res)
    requires r.event.pressed ==> r.event.key !in DownIn(s.log)
    ensures Good(res.state.tapping, res.state.log, q[1..])
  {
    var down, t' := DownIn(s.log), res.state.tapping;
    if r.event.pressed {
      PairedGrows(s.log, Handed(r));
      HoldAdded(down, s.tapping, q, r.event.key);
      RoleKept(down[r.event.key := false], s.tapping, t', q);
      PressTaken(down[r.event.key := false], t', q);
    } else {
      ReleaseFits(down, s.tapping, q, 0);
      PairedGrows(s.log, Handed(r));
      ReleaseTaken(down, s.tapping, q, 0, t');
      assert Without(q, 0) == q[1..];
    }
  }

  lemma {:induction false} EndsTapGood(s: State, r: Record, res: StepResult, q: seq<Record>)
    requires Good(s.tapping, s.log, q) && q != [] && q[0] == r && EndsTap(s, r, res)
    ensures Good(res.state.tapping, res.state.log, q[1..])
  {
    PairedGrows(s.log, Handed(res.record));
    ReleaseTaken(DownIn(s.log), s.tapping, q, 0, res.state.tapping);
    assert Without(q, 0) == q[1..];
  }

  lemma {:induction false} TapsAgainGood(s: State, r: Record, res: StepResult, q: seq<Record>)
    requires Good(s.tapping, s.log, q) && q != [] && q[0] == r && IsFresh(r) && TapsAgain(s, r, res)
    requires r.event.key !in DownIn(s.log)
    ensures Good(res.state.tapping, res.state.log, q[1..])
  {
    PairedGrows(s.log, Handed(res.record));
    NextTapAdded(DownIn(s.log), s.tapping, q, res.record);
    PressTaken(DownIn(s.log)[r.event.key := true], res.record, q);
  }

  /** Ending the tap that goes on, if any, leaves no tapping key to account for. */
  lemma {:induction false} EndedTapGood(s: State, r: Record, q: seq<Record>)
    requires Good(s.tapping, s.log, q) && !IsUndecided(s) && q != [] && q[0] == r && r.event.pressed && IsFresh(r)
    ensures Good(NO_RECORD, EndedTap(s, r), q[1..])
    ensures r.event.key !in DownIn(s.log) ==> r.event.key !in DownIn(EndedTap(s, r))
  {
    var t, down := s.tapping, DownIn(s.log);
    if !IsTapDown(t) {
      RoleKept(down, t, NO_RECORD, q);
    } else {
      TapLeft(down, t, q);
      if t.tap.count > 1 {
        PairedGrows(s.log, Synthetic(SyntheticRelease(t, r.event.time)));
      }
    }
    PressTaken(DownIn(EndedTap(s, r)), NO_RECORD, q);
  }

  lemma {:induction false} BeginsGood(s: State, r: Record, res: StepResult, q: seq<Record>)
    requires Good(s.tapping, s.log, q) && q != [] && q[0] == r && IsFresh(r) && Begins(s, r, res)
    ensures Good(res.state.tapping, res.state.log, q[1..])
  {
    EndedTapGood(s, r, q);
    RoleKept(DownIn(EndedTap(s, r)), NO_RECORD, r, q[1..]);
  }

  /** The release found by looking ahead is the key's own: no record of that key waits before it. */
  predicate OwnRelease(cfg: Config, s: State, r: Record) {
    var s1 := State(r, s.ring, EndedTap(s, r));
    var i := FirstCandidate(cfg, s1, 0);
    i < |s.ring| ==> forall j :: 0 < j < i ==> s.ring[j].event.key != r.event.key
  }

  /** A tap found by looking ahead keeps records matched exactly when the release found is the key's own. */
  lemma {:induction false} BeginsTapExactly(cfg: Config, s: State, r: Record, res: StepResult)
    requires Good(s.tapping, s.log, s.ring) && s.ring != [] && s.ring[0] == r && IsFresh(r)
    requires BeginsTap(cfg, s, r, res) && r.event.key !in DownIn(s.log)
    ensures Good(res.state.tapping, res.state.log, res.state.ring[1..]) <==> OwnRelease(cfg, s, r)
  {
    var q, log1 := s.ring, EndedTap(s, r);
    var s1 := State(r, q, log1);
    var i := FirstCandidate(cfg, s1, 0);
    var t, c := SetTapCount(r, 1), SetTapCount(q[i], 1);
    EndedTapGood(s, r, q);
    assert IsTapCandidate(cfg, s1, q[i]) && i > 0;
    assert res.state == State(t, q[i := c], log1 + [Handed(t)]);
    PairedGrows(log1, Handed(t));
    assert q[i := c][1..] == q[1..][i - 1 := c];
    if OwnRelease(cfg, s, r) {
      assert FirstOfKey(q[1..], i - 1);
      FirstTapAdded(DownIn(log1), NO_RECORD, q[1..], i - 1, c, t);
    } else {
      var j :| 0 < j < i && q[j].event.key == r.event.key;
      var q' := q[i := c][1..];
      assert q'[i - 1] == c && c.tap.count > 0 && q'[j - 1].event.key == q'[i - 1].event.key;
      assert !FirstOfKey(q', i - 1);
    }
  }

  /** A record offered from the front of the queue and consumed. */
  lemma {:induction false} ConsumedGood(cfg: Config, s: State, r: Record, res: StepResult, q: seq<Record>)
    requires Inv(s) && Good(s.tapping, s.log, q) && q != [] && q[0] == r && IsFresh(r) && !r.event.IsTick()
    requires res == Step(cfg, s, r) && res.consumed && !BeginsTap(cfg, s, r, res)
    requires !IsUndecided(s) && r.event.pressed ==> r.event.key !in DownIn(s.log)
    ensures Good(res.state.tapping, res.state.log, q[1..])
  {
    StepIsOneOf(cfg, s, r, res);
    if Overtakes(s, r, res) {
      OvertakesGood(s, r, res, q, 0);
      assert Without(q, 0) == q[1..];
    } else if Passes(s, r, res) {
      PassesGood(s, r, res, q);
    } else if EndsTap(s, r, res) {
      EndsTapGood(s, r, res, q);
    } else if TapsAgain(s, r, res) {
      TapsAgainGood(s, r, res, q);
    } else {
      BeginsGood(s, r, res, q);
    }
  }

  /** A record, wherever it waits, that is not consumed: only a first tap can break the matching. */
  lemma {:induction false} UnconsumedExactly(cfg: Config, s: State, r: Record, res: StepResult, q: seq<Record>, i: nat)
    requires Inv(s) && IsFresh(r) && Good(s.tapping, s.log, q) && i < |q| && q[i] == r
    requires res == Step(cfg, s, r) && !res.consumed
    requires IsUndecided(s) ==> s.tapping.event.key !in DownIn(s.log)
    ensures Good(res.state.tapping, res.state.log, q[i := res.record])
            <==> (TapsFirst(s, r, res) ==> FirstOfKey(q, i))
  {
    StepIsOneOf(cfg, s, r, res);
    if TapsFirst(s, r, res) {
      TapsFirstExactly(s, r, res, q, i);
    } else {
      KeepsGood(s, r, res, q);
      assert q[i := res.record] == q;
    }
  }
}
