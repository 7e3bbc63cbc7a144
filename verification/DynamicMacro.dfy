/**
 * Dynamic macros: two key recordings that share one buffer, one growing from each
 * end.  The buffer with its end pointers is proved to behave like two separate
 * lists with a common capacity.
 */
module DynamicMacro {
  import opened KeyEvents

  /** The keycodes the recorder reacts to. */
  datatype Key = RecordStart(first: bool) | Play(first: bool) | RecordStop | OtherKey

  datatype Recording = NotRecording | Recording(first: bool, keys: seq<Record>)

  /** Two saved macros and a recording in progress; the macro being recorded anew is gone. */
  datatype Macros = Macros(macro1: seq<Record>, macro2: seq<Record>, recording: Recording)

  const EMPTY := Macros([], [], NotRecording)

  /** The new macros, the records played back, and whether the key is processed further. */
  datatype Outcome = Outcome(macros: Macros, played: seq<Record>, goOn: bool)

  function Saved(m: Macros, first: bool): seq<Record> { if first then m.macro1 else m.macro2 }

  function Save(m: Macros, first: bool, keys: seq<Record>): Macros {
    if first then m.(macro1 := keys) else m.(macro2 := keys)
  }

  /** The recording without the keys still held at its end. */
  function Trim(keys: seq<Record>): seq<Record> {
    if keys != [] && keys[|keys| - 1].event.pressed then Trim(keys[..|keys| - 1]) else keys
  }

  /** One more key: releases do not start a recording, and a full buffer takes no more. */
  function Grow(keys: seq<Record>, r: Record, room: nat): seq<Record> {
    if !r.event.pressed && keys == [] then keys
    else if |keys| < room then keys + [r]
    else keys
  }

  /** How many records a recording may take in a buffer of `size`. */
  function Room(size: nat, m: Macros, first: bool): nat {
    var other := |Saved(m, !first)|;
    if size >= other then size - other else 0
  }

  function Handle(size: nat, m: Macros, key: Key, r: Record): Outcome {
    if m.recording.NotRecording? then
      if r.event.pressed then Outcome(m, [], true)
      else if key.RecordStart? then
        Outcome(Save(m, key.first, []).(recording := Recording(key.first, [])), [], false)
      else if key.Play? then Outcome(m, Saved(m, key.first), false)
      else Outcome(m, [], true)
    else if key.RecordStop? then
      if r.event.pressed then
        Outcome(Save(m, m.recording.first, Trim(m.recording.keys)).(recording := NotRecording), [], false)
      else Outcome(m, [], false)
    else if key.Play? then Outcome(m, [], false)
    else
      var rec := m.recording;
      Outcome(m.(recording := Recording(rec.first, Grow(rec.keys, r, Room(size, m, rec.first)))), [], true)
  }

  // ---------------------------------------------------------------- what is recorded

  function DropLeadingReleases(keys: seq<Record>): seq<Record> {
    if keys != [] && !keys[0].event.pressed then DropLeadingReleases(keys[1..]) else keys
  }

  function First(keys: seq<Record>, n: nat): seq<Record> { if |keys| <= n then keys else keys[..n] }

  /** The recording after a sequence of keys. */
  function GrowAll(keys: seq<Record>, room: nat): seq<Record> {
    if keys == [] then [] else Grow(GrowAll(keys[..|keys| - 1], room), keys[|keys| - 1], room)
  }

  lemma {:induction false} DropSnoc(keys: seq<Record>, r: Record)
    ensures DropLeadingReleases(keys + [r])
            == if DropLeadingReleases(keys) == [] && !r.event.pressed then [] else DropLeadingReleases(keys) + [r]
  {
    if keys == [] {
      assert keys + [r] == [r];
      assert [r][1..] == [];
    } else if !keys[0].event.pressed {
      assert (keys + [r])[1..] == keys[1..] + [r];
      DropSnoc(keys[1..], r);
    }
  }

  /** A recording is the keys typed, from the first press on, as far as there is room. */
  lemma {:induction false} RecordsFromFirstPress(keys: seq<Record>, room: nat)
    ensures GrowAll(keys, room) == First(DropLeadingReleases(keys), room)
  {
    if keys != [] {
      var n := |keys| - 1;
      RecordsFromFirstPress(keys[..n], room);
      DropSnoc(keys[..n], keys[n]);
      assert keys[..n] + [keys[n]] == keys;
    }
  }

  predicate IsSavedForm(keys: seq<Record>) {
    keys == [] || (keys[0].event.pressed && !keys[|keys| - 1].event.pressed)
  }

  predicate StartsWithPress(keys: seq<Record>) { keys == [] || keys[0].event.pressed }

  lemma {:induction false} TrimForm(keys: seq<Record>)
    requires StartsWithPress(keys)
    ensures IsSavedForm(Trim(keys)) && Trim(keys) <= keys
    ensures forall i :: |Trim(keys)| <= i < |keys| ==> keys[i].event.pressed
  {
    if keys != [] && keys[|keys| - 1].event.pressed {
      TrimForm(keys[..|keys| - 1]);
    }
  }

  // ---------------------------------------------------------------- every run

  datatype Typed = Typed(key: Key, record: Record)

  function RunMacros(size: nat, input: seq<Typed>): Macros {
    if input == [] then EMPTY
    else Handle(size, RunMacros(size, input[..|input| - 1]), input[|input| - 1].key, input[|input| - 1].record).macros
  }

  predicate Inv(size: nat, m: Macros) {
    && IsSavedForm(m.macro1) && IsSavedForm(m.macro2)
    && |m.macro1| + |m.macro2| <= size
    && (m.recording.Recording? ==>
          && StartsWithPress(m.recording.keys) && Saved(m, m.recording.first) == []
          && |m.recording.keys| <= Room(size, m, m.recording.first))
  }

  lemma {:induction false} HandleKeepsInv(size: nat, m: Macros, key: Key, r: Record)
    requires Inv(size, m)
    ensures Inv(size, Handle(size, m, key, r).macros)
  {
    if m.recording.Recording? {
      TrimForm(m.recording.keys);
    }
  }

  /** In every run both macros fit, and each is empty or starts with a press and ends with a release. */
  lemma {:induction false} RunKeepsInv(size: nat, input: seq<Typed>)
    ensures Inv(size, RunMacros(size, input))
  {
    if input != [] {
      RunKeepsInv(size, input[..|input| - 1]);
      HandleKeepsInv(size, RunMacros(size, input[..|input| - 1]), input[|input| - 1].key, input[|input| - 1].record);
    }
  }

  /** The keys typed between start and stop, none of them a recorder key. */
  function TypeAll(size: nat, m: Macros, keys: seq<Record>): Macros {
    if keys == [] then m
    else Handle(size, TypeAll(size, m, keys[..|keys| - 1]), OtherKey, keys[|keys| - 1]).macros
  }

  lemma {:induction false} TypingGrows(size: nat, m: Macros, first: bool, keys: seq<Record>)
    requires m.recording == Recording(first, [])
    ensures TypeAll(size, m, keys) == m.(recording := Recording(first, GrowAll(keys, Room(size, m, first))))
  {
    if keys != [] {
      TypingGrows(size, m, first, keys[..|keys| - 1]);
    }
  }

  /**
   * A whole session: start, type, stop, play.  Playback gives the keys typed, from
   * the first press on, as far as they fit beside the other macro, without the keys
   * still held when the recording stopped; the other macro is as it was.
   */
  lemma {:induction false} SessionPlaysBack(
      size: nat, m: Macros, first: bool, keys: seq<Record>, up: Record, down: Record)
    requires m.recording.NotRecording? && !up.event.pressed && down.event.pressed
    ensures var started := Handle(size, m, RecordStart(first), up).macros;
      var stopped := Handle(size, TypeAll(size, started, keys), RecordStop, down).macros;
      && Handle(size, stopped, Play(first), up).played
         == Trim(First(DropLeadingReleases(keys), Room(size, m, first)))
      && Saved(stopped, !first) == Saved(m, !first)
      && stopped.recording == NotRecording
  {
    var started := Handle(size, m, RecordStart(first), up).macros;
    TypingGrows(size, started, first, keys);
    RecordsFromFirstPress(keys, Room(size, m, first));
  }

  // ---------------------------------------------------------------- which keys go on, and which do nothing

  /**
   * A key is kept from further processing exactly when it is a recorder key that the
   * recorder reacts to or ignores: while recording, stop and play keys; else the
   * release of start and play keys.  So every other key goes on.
   */
  lemma {:induction false} GoesOn(size: nat, m: Macros, key: Key, r: Record)
    ensures var goOn := Handle(size, m, key, r).goOn;
      && (key.OtherKey? ==> goOn)
      && (goOn <==>
            if m.recording.Recording? then !key.RecordStop? && !key.Play?
            else r.event.pressed || (!key.RecordStart? && !key.Play?))
  {
  }

  /**
   * Records are played only by the release of a play key while nothing is recorded,
   * and then the whole saved macro.  The macros change only when a recording starts,
   * by the release of its key; when it stops, by the press of the stop key; and when
   * a key that is neither stop nor play is typed meanwhile.
   */
  lemma {:induction false} ReactsTo(size: nat, m: Macros, key: Key, r: Record)
    ensures var o := Handle(size, m, key, r);
      && o.played == (if m.recording.NotRecording? && key.Play? && !r.event.pressed
                      then (if key.first then m.macro1 else m.macro2) else [])
      && (m.recording.NotRecording? && !(key.RecordStart? && !r.event.pressed) ==> o.macros == m)
      && (m.recording.Recording? && key.Play? ==> o.macros == m)
      && (m.recording.Recording? && key.RecordStop? && !r.event.pressed ==> o.macros == m)
      && (m.recording.Recording? && key.RecordStart? ==> o.macros == Handle(size, m, OtherKey, r).macros)
  {
  }

  // ---------------------------------------------------------------- a session, by positions

  lemma {:induction false} LeadingReleases(keys: seq<Record>) returns (lo: nat)
    ensures lo <= |keys| && DropLeadingReleases(keys) == keys[lo..]
    ensures (forall i :: 0 <= i < lo ==> !keys[i].event.pressed) && (lo < |keys| ==> keys[lo].event.pressed)
  {
    if keys != [] && !keys[0].event.pressed {
      var k := LeadingReleases(keys[1..]);
      lo := k + 1;
      assert keys[1..][k..] == keys[lo..];
    } else {
      lo := 0;
      assert keys[0..] == keys;
    }
  }

  lemma {:induction false} TrimAt(keys: seq<Record>)
    ensures var n := |Trim(keys)|; n <= |keys| && Trim(keys) == keys[..n]
    ensures forall i :: |Trim(keys)| <= i < |keys| ==> keys[i].event.pressed
    ensures Trim(keys) != [] ==> !keys[|Trim(keys)| - 1].event.pressed
  {
    if keys != [] && keys[|keys| - 1].event.pressed {
      TrimAt(keys[..|keys| - 1]);
      assert keys[..|keys| - 1][..|Trim(keys)|] == keys[..|Trim(keys)|];
    }
  }

  /** What is left of keys by dropping releases, cutting to the room, and trimming presses. */
  lemma {:induction false} CutAt(keys: seq<Record>, room: nat) returns (lo: nat, end: nat, hi: nat)
    ensures lo <= hi <= end <= |keys| && end - lo <= room && (end < |keys| ==> end - lo == room)
    ensures (forall i :: 0 <= i < lo ==> !keys[i].event.pressed) && (lo < |keys| ==> keys[lo].event.pressed)
    ensures (forall i :: hi <= i < end ==> keys[i].event.pressed) && (lo < hi ==> !keys[hi - 1].event.pressed)
    ensures Trim(First(DropLeadingReleases(keys), room)) == keys[lo..hi]
  {
    lo := LeadingReleases(keys);
    end := if |keys| - lo <= room then |keys| else lo + room;
    var taken := keys[lo..end];
    assert First(keys[lo..], room) == taken;
    TrimAt(taken);
    var n := |Trim(taken)|;
    hi := lo + n;
    assert taken[..n] == keys[lo..hi];
    assert forall i :: hi <= i < end ==> keys[i] == taken[i - lo];
  }

  /**
   * What a session plays is the keys from `lo` to `hi`: before them are only releases;
   * up to `end` they are as many as the other macro leaves room for, or all there are;
   * and from `hi` to `end` there are only presses.
   */
  lemma {:induction false} SessionPlays(
      size: nat, m: Macros, first: bool, keys: seq<Record>, up: Record, down: Record, played: seq<Record>, room: nat)
      returns (lo: nat, end: nat, hi: nat)
    requires m.recording.NotRecording? && !up.event.pressed && down.event.pressed
    requires |m.macro1| + |m.macro2| <= size && room == size - |if first then m.macro2 else m.macro1|
    requires var started := Handle(size, m, RecordStart(first), up).macros;
      var stopped := Handle(size, TypeAll(size, started, keys), RecordStop, down).macros;
      played == Handle(size, stopped, Play(first), up).played
    ensures lo <= hi <= end <= |keys| && played == keys[lo..hi]
    ensures end - lo <= room && (end < |keys| ==> end - lo == room)
    ensures (forall i :: 0 <= i < lo ==> !keys[i].event.pressed) && (lo < |keys| ==> keys[lo].event.pressed)
    ensures (forall i :: hi <= i < end ==> keys[i].event.pressed) && (lo < hi ==> !keys[hi - 1].event.pressed)
  {
    SessionPlaysBack(size, m, first, keys, up, down);
    RoomIs(size, m, first);
    lo, end, hi := CutAt(keys, room);
  }

  lemma {:induction false} RoomIs(size: nat, m: Macros, first: bool)
    requires |m.macro1| + |m.macro2| <= size
    ensures Room(size, m, first) == size - |if first then m.macro2 else m.macro1|
  {
  }
}
