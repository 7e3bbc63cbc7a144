/**
 * The encoder arrays as the firmware keeps them, with the polling loop and the loop
 * that catches up with the other half of a split keyboard.
 */
module EncoderReader {
  import opened Encoder

  /** A click handed on: which encoder, and whether its count went up. */
  datatype Click = Click(index: nat, up: bool)

  function ClickOf(index: nat, click: int): seq<Click> {
    if click > 0 then [Click(index, true)] else if click < 0 then [Click(index, false)] else []
  }

  /** As many clicks of one encoder as a difference of counts. */
  function Turns(index: nat, delta: int): seq<Click>
    decreases if delta >= 0 then delta else 0 - delta
  {
    if delta > 0 then Turns(index, delta - 1) + [Click(index, true)]
    else if delta < 0 then Turns(index, delta + 1) + [Click(index, false)]
    else []
  }

  /** What polling does to each encoder. */
  function Samples(ds: seq<Decoder>, pins: seq<Pins>, resolutions: seq<Resolution>): (rs: seq<Result>)
    requires |ds| <= |pins| && |ds| <= |resolutions|
    ensures |rs| == |ds|
  {
    if ds == [] then []
    else
      var n := |ds| - 1;
      Samples(ds[..n], pins, resolutions) + [Sample(ds[n], pins[n], resolutions[n])]
  }

  lemma {:induction false} SampleAt(ds: seq<Decoder>, pins: seq<Pins>, resolutions: seq<Resolution>, i: nat)
    requires i < |ds| <= |pins| && |ds| <= |resolutions|
    ensures Samples(ds, pins, resolutions)[i] == Sample(ds[i], pins[i], resolutions[i])
  {
    if i < |ds| - 1 {
      SampleAt(ds[..|ds| - 1], pins, resolutions, i);
    }
  }

  /** Clicks handed on by the first `n` encoders. */
  function Polled(hand: nat, rs: seq<Result>, n: nat): seq<Click>
    requires n <= |rs|
  {
    if n == 0 then [] else Polled(hand, rs, n - 1) + ClickOf(hand + n - 1, rs[n - 1].click)
  }

  /** The first `n` encoders as sampled, the others as they were. */
  function Mixed(rs: seq<Result>, ds: seq<Decoder>, n: nat): (m: seq<Decoder>)
    requires n <= |rs| == |ds|
    ensures |m| == |ds|
  {
    if n == 0 then ds else Mixed(rs, ds, n - 1)[n - 1 := rs[n - 1].decoder]
  }

  lemma {:induction false} MixedStep(rs: seq<Result>, ds: seq<Decoder>, n: nat)
    requires n < |rs| == |ds|
    ensures Mixed(rs, ds, n)[n] == ds[n] && Mixed(rs, ds, n + 1) == Mixed(rs, ds, n)[n := rs[n].decoder]
  {
    Later(rs, ds, n, n);
  }

  lemma {:induction false} Later(rs: seq<Result>, ds: seq<Decoder>, n: nat, i: nat)
    requires n <= i < |rs| == |ds|
    ensures Mixed(rs, ds, n)[i] == ds[i]
  {
    if n > 0 {
      Later(rs, ds, n - 1, i);
    }
  }

  /** After all rounds every encoder is as sampled. */
  lemma {:induction false} AllSampled(rs: seq<Result>, ds: seq<Decoder>, n: nat, i: nat)
    requires i < n <= |rs| == |ds|
    ensures Mixed(rs, ds, n)[i] == rs[i].decoder
  {
    if i < n - 1 {
      AllSampled(rs, ds, n - 1, i);
    }
  }

  /** Clicks handed on for the first `n` encoders of the other half. */
  function CaughtUp(hand: nat, values: seq<Count>, slave: seq<Count>, n: nat): seq<Click>
    requires n <= |slave| && hand + n <= |values|
  {
    if n == 0 then []
    else CaughtUp(hand, values, slave, n - 1) + Turns(hand + n - 1, Delta(slave[n - 1], values[hand + n - 1]))
  }

  // ---------------------------------------------------------------- the clicks of one encoder

  /** Clicks up less clicks down of one encoder. */
  function Net(clicks: seq<Click>, index: nat): int {
    if clicks == [] then 0
    else
      var c := clicks[|clicks| - 1];
      Net(clicks[..|clicks| - 1], index) + (if c.index != index then 0 else if c.up then 1 else -1)
  }

  lemma {:induction false} NetConcat(a: seq<Click>, b: seq<Click>, index: nat)
    ensures Net(a + b, index) == Net(a, index) + Net(b, index)
  {
    if b == [] {
      assert a + b == a;
    } else {
      assert (a + b)[..|a + b| - 1] == a + b[..|b| - 1];
      NetConcat(a, b[..|b| - 1], index);
    }
  }

  lemma {:induction false} NetOne(c: Click, index: nat)
    ensures Net([c], index) == if c.index != index then 0 else if c.up then 1 else -1
  {
    assert [c][..0] == [] && Net([], index) == 0;
  }

  function Sign(click: int): int { if click > 0 then 1 else if click < 0 then -1 else 0 }

  lemma {:induction false} NetClick(i: nat, click: int, index: nat)
    ensures Net(ClickOf(i, click), index) == if i == index then Sign(click) else 0
  {
    NetOne(Click(i, true), index);
    NetOne(Click(i, false), index);
  }

  lemma {:induction false} NetTurns(i: nat, delta: int, index: nat)
    ensures Net(Turns(i, delta), index) == if i == index then delta else 0
    decreases if delta >= 0 then delta else 0 - delta
  {
    if delta > 0 {
      NetTurns(i, delta - 1, index);
      NetOne(Click(i, true), index);
      NetConcat(Turns(i, delta - 1), [Click(i, true)], index);
    } else if delta < 0 {
      NetTurns(i, delta + 1, index);
      NetOne(Click(i, false), index);
      NetConcat(Turns(i, delta + 1), [Click(i, false)], index);
    }
  }

  /** On a fetch each encoder of the other half hands on the difference of its counts, and no other does. */
  lemma {:induction false} FetchHandsOn(hand: nat, values: seq<Count>, slave: seq<Count>, n: nat, index: nat)
    requires n <= |slave| && hand + n <= |values|
    ensures Net(CaughtUp(hand, values, slave, n), index)
            == if hand <= index < hand + n then Delta(slave[index - hand], values[index]) else 0
  {
    if n > 0 {
      FetchHandsOn(hand, values, slave, n - 1, index);
      var turns := Turns(hand + n - 1, Delta(slave[n - 1], values[hand + n - 1]));
      NetTurns(hand + n - 1, Delta(slave[n - 1], values[hand + n - 1]), index);
      NetConcat(CaughtUp(hand, values, slave, n - 1), turns, index);
    }
  }

  lemma {:induction false} NetPolled(hand: nat, rs: seq<Result>, n: nat, index: nat)
    requires n < |rs|
    ensures Net(Polled(hand, rs, n + 1), index)
            == Net(Polled(hand, rs, n), index) + if hand + n == index then Sign(rs[n].click) else 0
  {
    NetClick(hand + n, rs[n].click, index);
    NetConcat(Polled(hand, rs, n), ClickOf(hand + n, rs[n].click), index);
  }

  lemma {:induction false} NetNext(hand: nat, rs: seq<Result>, n: nat, i: nat, before: int, after: int)
    requires n < |rs| && i < |rs|
    requires before == Net(Polled(hand, rs, n), hand + i) && after == Net(Polled(hand, rs, n + 1), hand + i)
    ensures after == before + if n == i then Sign(rs[i].click) else 0
  {
    NetPolled(hand, rs, n, hand + i);
  }

  lemma {:induction false} PollHandsOn(hand: nat, rs: seq<Result>, n: nat, i: nat, net: int)
    requires n <= |rs| && i < |rs| && net == Net(Polled(hand, rs, n), hand + i)
    ensures net == if i < n then Sign(rs[i].click) else 0
  {
    if n > 0 {
      var before := Net(Polled(hand, rs, n - 1), hand + i);
      PollHandsOn(hand, rs, n - 1, i, before);
      NetNext(hand, rs, n - 1, i, before, net);
    }
  }

  /** The encoders after polling again and again, and all clicks handed on. */
  function PollAll(hand: nat, ds: seq<Decoder>, rounds: seq<seq<Pins>>, resolutions: seq<Resolution>)
      : (r: (seq<Decoder>, seq<Click>))
    requires |ds| <= |resolutions| && forall k :: 0 <= k < |rounds| ==> |rounds[k]| == |ds|
    ensures |r.0| == |ds|
  {
    if rounds == [] then (ds, [])
    else
      var n := |rounds| - 1;
      var before := PollAll(hand, ds, rounds[..n], resolutions);
      var rs := Samples(before.0, rounds[n], resolutions);
      (seq(|ds|, i requires 0 <= i < |rs| => rs[i].decoder), before.1 + Polled(hand, rs, |rs|))
  }

  /** What one encoder saw. */
  function Column(rounds: seq<seq<Pins>>, i: nat): (h: seq<Pins>)
    requires forall k :: 0 <= k < |rounds| ==> i < |rounds[k]|
    ensures |h| == |rounds| && forall k :: 0 <= k < |h| ==> h[k] == rounds[k][i]
  {
    seq(|rounds|, k requires 0 <= k < |rounds| => rounds[k][i])
  }

  /** One round: each encoder's own sample, and the clicks of that. */
  lemma {:induction false} OnePoll(hand: nat, ds: seq<Decoder>, pins: seq<Pins>, resolutions: seq<Resolution>, i: nat)
    requires i < |ds| <= |resolutions| && |ds| == |pins|
    ensures var rs := Samples(ds, pins, resolutions);
      && rs[i] == Sample(ds[i], pins[i], resolutions[i])
      && Net(Polled(hand, rs, |rs|), hand + i) == rs[i].click
  {
    SampleAt(ds, pins, resolutions, i);
    var rs := Samples(ds, pins, resolutions);
    PollHandsOn(hand, rs, |rs|, i, Net(Polled(hand, rs, |rs|), hand + i));
  }

  lemma {:induction false} FollowOne(d: Decoder, history: seq<Pins>, pins: Pins, resolution: Resolution)
    ensures var before := Follow(d, history, resolution);
      var r := Sample(before.decoder, pins, resolution);
      Follow(d, history + [pins], resolution) == Result(r.decoder, before.click + r.click)
  {
    assert (history + [pins])[..|history|] == history;
  }

  /** What holds of one encoder after some rounds. */
  predicate IsFollowed(all: (seq<Decoder>, seq<Click>), i: nat, index: nat, r: Result) {
    i < |all.0| && all.0[i] == r.decoder && Net(all.1, index) == r.click
  }

  lemma {:induction false} PollNextFollowed(
      hand: nat, before: (seq<Decoder>, seq<Click>), pins: seq<Pins>, resolutions: seq<Resolution>, i: nat,
      d: Decoder, history: seq<Pins>, after: (seq<Decoder>, seq<Click>))
    requires i < |before.0| <= |resolutions| && |before.0| == |pins|
    requires IsFollowed(before, i, hand + i, Follow(d, history, resolutions[i]))
    requires var rs := Samples(before.0, pins, resolutions);
      |after.0| == |rs| && after.0[i] == rs[i].decoder && after.1 == before.1 + Polled(hand, rs, |rs|)
    ensures IsFollowed(after, i, hand + i, Follow(d, history + [pins[i]], resolutions[i]))
  {
    OnePoll(hand, before.0, pins, resolutions, i);
    FollowOne(d, history, pins[i], resolutions[i]);
    NetConcat(before.1, Polled(hand, Samples(before.0, pins, resolutions), |before.0|), hand + i);
  }

  /**
   * However often the encoders are polled, the clicks handed on for each of them, up
   * less down, are those of its own pins.
   */
  lemma {:induction false} ClicksAreFollowed(
      hand: nat, ds: seq<Decoder>, rounds: seq<seq<Pins>>, resolutions: seq<Resolution>, i: nat)
    requires |ds| <= |resolutions| && i < |ds| && forall k :: 0 <= k < |rounds| ==> |rounds[k]| == |ds|
    ensures IsFollowed(PollAll(hand, ds, rounds, resolutions), i, hand + i,
                       Follow(ds[i], Column(rounds, i), resolutions[i]))
  {
    if rounds == [] {
      assert Column(rounds, i) == [];
    } else {
      var n := |rounds| - 1;
      ClicksAreFollowed(hand, ds, rounds[..n], resolutions, i);
      assert Column(rounds, i) == Column(rounds[..n], i) + [rounds[n][i]];
      PollNextFollowed(hand, PollAll(hand, ds, rounds[..n], resolutions), rounds[n], resolutions, i,
                       ds[i], Column(rounds[..n], i), PollAll(hand, ds, rounds, resolutions));
    }
  }

  class Encoders {
    const count: nat
    const hand: nat
    const resolutions: seq<Resolution>
    const master: bool
    const state: array<Count>
    const pulses: array<int>
    const value: array<Count>
    var clicks: seq<Click>

    ghost predicate Valid() {
      && state.Length == pulses.Length == count <= |resolutions| && hand + count <= value.Length
      && state != value
    }

    ghost function At(i: nat): Decoder
      requires Valid() && i < count
      reads state, pulses, value
    {
      Decoder(state[i], pulses[i], value[hand + i])
    }

    ghost function All(): (ds: seq<Decoder>)
      requires Valid()
      reads state, pulses, value
      ensures |ds| == count
    {
      var s, p, v := state[..], pulses[..], value[..];
      seq(count, i requires 0 <= i < |s| && i < |p| && hand + i < |v| => Decoder(s[i], p[i], v[hand + i]))
    }

    constructor (count: nat, hand: nat, total: nat, resolutions: seq<Resolution>, master: bool, pins: seq<Pins>)
      requires count <= |resolutions| && hand + count <= total && |pins| == count
      ensures Valid() && fresh(state) && fresh(pulses) && fresh(value) && clicks == []
      ensures this.count == count && this.hand == hand && this.resolutions == resolutions && this.master == master
      ensures forall i :: 0 <= i < count ==> At(i) == Decoder(pins[i], 0, 0)
    {
      this.count, this.hand, this.resolutions, this.master := count, hand, resolutions, master;
      state := new Count[count](i requires 0 <= i < |pins| => pins[i]);
      pulses := new int[count](_ => 0);
      value := new Count[total](_ => 0);
      clicks := [];
    }

    /** encoder_update. */
    method Update(i: nat, step: int)
      requires Valid() && i < count && -1 <= step <= 1
      modifies this`clicks, pulses, value
      ensures var r := AddStep(old(At(i)), step, resolutions[i]);
        && At(i) == r.decoder
        && clicks == old(clicks) + if master then ClickOf(hand + i, r.click) else []
      ensures forall k :: 0 <= k < count && k != i ==> pulses[k] == old(pulses[k])
      ensures forall k :: 0 <= k < value.Length && k != hand + i ==> value[k] == old(value[k])
    {
      var index, resolution := hand + i, resolutions[i];
      pulses[i] := Signed8(pulses[i] + step);
      if pulses[i] >= resolution {
        value[index] := Unsigned8((value[index] as int) + 1);
        if master {
          clicks := clicks + [Click(index, true)];
        }
      }
      if pulses[i] <= 0 - resolution {
        value[index] := Unsigned8((value[index] as int) - 1);
        if master {
          clicks := clicks + [Click(index, false)];
        }
      }
      pulses[i] := Remainder(pulses[i], resolution);
    }

    /** The body of the polling loop. */
    method Poll(i: nat, pins: Pins, ghost r: Result)
      requires Valid() && i < count && r == Sample(At(i), pins, resolutions[i])
      modifies this`clicks, state, pulses, value
      ensures All() == old(All())[i := r.decoder]
      ensures clicks == old(clicks) + if master then ClickOf(hand + i, r.click) else []
    {
      if state[i] % 4 != pins {
        var last := state[i] % 4;
        state[i] := (state[i] * 4 + pins) % 256;
        TableIsQuarter(last, pins);
        NewState(old(state[i]), pins);
        Update(i, LUT[last * 4 + pins]);
      }
    }

    /** encoder_read: every encoder of this half follows its pins, and clicks are handed on in index order. */
    method Read(pins: seq<Pins>)
      requires Valid() && |pins| == count
      modifies this`clicks, state, pulses, value
      ensures var rs := Samples(old(All()), pins, resolutions);
        && (forall i :: 0 <= i < count ==> At(i) == rs[i].decoder)
        && clicks == old(clicks) + if master then Polled(hand, rs, count) else []
    {
      ghost var was, clicked := All(), clicks;
      ghost var rs := Samples(was, pins, resolutions);
      assert Mixed(rs, was, 0) == was;
      for i := 0 to count
        invariant All() == Mixed(rs, was, i) && clicks == clicked + if master then Polled(hand, rs, i) else []
      {
        SampleAt(was, pins, resolutions, i);
        PollNext(i, pins[i], rs, was, clicked);
      }
      forall i | 0 <= i < count
        ensures All()[i] == rs[i].decoder
      {
        AllSampled(rs, was, count, i);
      }
    }

    /** One round of the polling loop. */
    method PollNext(i: nat, pins: Pins, ghost rs: seq<Result>, ghost was: seq<Decoder>, ghost clicked: seq<Click>)
      requires Valid() && i < count == |rs| == |was| && rs[i] == Sample(was[i], pins, resolutions[i])
      requires All() == Mixed(rs, was, i) && clicks == clicked + if master then Polled(hand, rs, i) else []
      modifies this`clicks, state, pulses, value
      ensures All() == Mixed(rs, was, i + 1) && clicks == clicked + if master then Polled(hand, rs, i + 1) else []
    {
      MixedStep(rs, was, i);
      assert At(i) == All()[i];
      Poll(i, pins, rs[i]);
    }

    /** Hands on clicks until one count is that of the other half. */
    method CatchUp(index: nat, slave: Count)
      requires index < value.Length
      modifies this`clicks, value
      ensures value[..] == old(value[..])[index := slave]
      ensures clicks == old(clicks) + Turns(index, Delta(slave, old(value[index])))
    {
      ghost var was, v, all := clicks, value[index], Delta(slave, value[index]);
      var delta := Signed8(slave - value[index]);
      while delta > 0
        invariant if all > 0 then 0 <= delta <= all else delta == all
        invariant value[index] == Unsigned8(v + (all - delta))
        invariant forall k :: 0 <= k < value.Length && k != index ==> value[k] == old(value[k])
        invariant clicks == was + Turns(index, all - delta)
      {
        CountOn(v, all - delta, 1);
        delta := delta - 1;
        value[index] := Unsigned8((value[index] as int) + 1);
        clicks := clicks + [Click(index, true)];
      }
      while delta < 0
        invariant if all < 0 then all <= delta <= 0 else delta == 0
        invariant value[index] == Unsigned8(v + (all - delta))
        invariant forall k :: 0 <= k < value.Length && k != index ==> value[k] == old(value[k])
        invariant clicks == was + Turns(index, all - delta)
      {
        CountOn(v, all - delta, -1);
        delta := delta + 1;
        value[index] := Unsigned8((value[index] as int) - 1);
        clicks := clicks + [Click(index, false)];
      }
    }

    /** encoder_update_raw: afterwards the counts of the other half are the fetched ones. */
    method UpdateRaw(that: nat, slave: seq<Count>)
      requires that + |slave| <= value.Length
      modifies this`clicks, value
      ensures value[..] == old(value[..that]) + slave + old(value[that + |slave|..])
      ensures clicks == old(clicks) + CaughtUp(that, old(value[..]), slave, |slave|)
    {
      ghost var was := value[..];
      for i := 0 to |slave|
        invariant value[..] == was[..that] + slave[..i] + was[that + i..]
        invariant clicks == old(clicks) + CaughtUp(that, was, slave, i)
      {
        assert value[that + i] == was[that + i];
        CatchUp(that + i, slave[i]);
        assert was[..that] + slave[..i + 1] + was[that + i + 1..]
            == (was[..that] + slave[..i] + was[that + i..])[that + i := slave[i]];
      }
    }
  }
}
