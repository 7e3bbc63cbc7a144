/**
 * Decoding quadrature encoders.  Every change of the two pins is looked up as a
 * quarter step forward, back or neither; steps add up until there are enough for a
 * click.  The half of a split keyboard without a host only counts clicks, and the
 * other half makes up the difference.
 */
module Encoder {

  /** The state of the two pins, as a number below four. */
  type Pins = p: int | 0 <= p < 4

  type Count = c: int | 0 <= c < 256

  /** Quarter steps per click. */
  type Resolution = r: int | 0 < r < 256 witness 4

  /** Both pins never change at once in an even turn; forward it goes 0, 2, 3, 1, 0. */
  function Quarter(from: Pins, to: Pins): (q: int)
    ensures -1 <= q <= 1
  {
    if to == Next(from) then 1 else if from == Next(to) then -1 else 0
  }

  function Next(p: Pins): Pins {
    if p == 0 then 2 else if p == 2 then 3 else if p == 3 then 1 else 0
  }

  /** encoder_LUT, indexed by old pins * 4 + new pins. */
  const LUT: seq<int> := [0, -1, 1, 0, 1, 0, 0, -1, -1, 0, 0, 1, 0, 1, -1, 0]

  /** The lookup table holds the quarter steps. */
  lemma {:induction false} TableIsQuarter(from: Pins, to: Pins)
    ensures LUT[from * 4 + to] == Quarter(from, to)
  {
    if from == 0 {
    } else if from == 1 {
    } else if from == 2 {
    } else {
    }
  }

  /** A value wrapped around to an unsigned byte. */
  function Unsigned8(x: int): (y: Count)
    ensures 0 <= x < 256 ==> y == x
    decreases if x >= 0 then x else 256 - x
  {
    if x > 255 then Unsigned8(x - 256) else if x < 0 then Unsigned8(x + 256) else x
  }

  lemma {:induction false} Unsigned8Is(x: int)
    ensures Unsigned8(x) == x % 256
    decreases if x >= 0 then x else 256 - x
  {
    if x > 255 {
      Unsigned8Is(x - 256);
    } else if x < 0 {
      Unsigned8Is(x + 256);
    }
  }

  /** A value wrapped around to a signed byte. */
  function Signed8(x: int): (y: int)
    ensures -128 <= y < 128 && (-128 <= x < 128 ==> y == x)
  {
    var u: int := Unsigned8(x + 128);
    u - 128
  }

  /** Remainder with the sign of the dividend, by taking away the divisor as often as it goes. */
  function Remainder(x: int, n: int): (r: int)
    requires n > 0
    ensures 0 - n < r < n
    decreases if x >= 0 then x else 0 - x
  {
    if x >= n then Remainder(x - n, n) else if x <= 0 - n then Remainder(x + n, n) else x
  }

  /** One encoder: its last pin states, steps short of a click, and clicks counted. */
  datatype Decoder = Decoder(state: Count, pulses: int, value: Count)

  /** The decoder afterwards, and 1, -1 or 0 for the click handed on. */
  datatype Result = Result(decoder: Decoder, click: int)

  /** encoder_update, given the step that was looked up. */
  function AddStep(d: Decoder, step: int, resolution: Resolution): Result
  {
    var pulses := Signed8(d.pulses + step);
    var up := if pulses >= resolution then 1 else 0;
    var down := if pulses <= 0 - resolution then 1 else 0;
    Result(Decoder(d.state, Remainder(pulses, resolution), Unsigned8(d.value + (up - down))), up - down)
  }

  /** encoder_read for one encoder. */
  function Sample(d: Decoder, pins: Pins, resolution: Resolution): Result
  {
    if d.state % 4 == pins then Result(d, 0)
    else AddStep(d.(state := (d.state * 4 + pins) % 256), Quarter(d.state % 4, pins), resolution)
  }

  /** The decoder after a history of pin states, and the clicks handed on, counted with sign. */
  function Follow(d: Decoder, history: seq<Pins>, resolution: Resolution): Result
  {
    if history == [] then Result(d, 0)
    else
      var before := Follow(d, history[..|history| - 1], resolution);
      var r := Sample(before.decoder, history[|history| - 1], resolution);
      Result(r.decoder, before.click + r.click)
  }

  // ---------------------------------------------------------------- conservation

  /** Quarter steps along a path of pin states. */
  function Steps(start: Pins, history: seq<Pins>): int {
    if history == [] then 0
    else
      var n := |history| - 1;
      Steps(start, history[..n]) + Quarter(if n == 0 then start else history[n - 1], history[n])
  }

  /** The pins a decoder last saw. */
  function Last(start: Pins, history: seq<Pins>): Pins {
    if history == [] then start else history[|history| - 1]
  }

  lemma {:induction false} StepsStep(start: Pins, history: seq<Pins>)
    requires history != []
    ensures var before, pins := history[..|history| - 1], history[|history| - 1];
      Steps(start, history) == Steps(start, before) + Quarter(Last(start, before), pins)
  {
  }

  lemma {:induction false} NewState(state: int, pins: Pins)
    requires 0 <= state < 256
    ensures (state * 4 + pins) % 256 % 4 == pins
  {
  }

  /** Quarter steps that one click, or none, stands for. */
  function Worth(resolution: int, click: int): int {
    if click == 0 then 0 else if click > 0 then resolution else 0 - resolution
  }

  lemma {:induction false} AddStepConserves(d: Decoder, step: int, resolution: Resolution)
    requires resolution < 128 && 0 - resolution < d.pulses < resolution && -1 <= step <= 1
    ensures var r := AddStep(d, step, resolution);
      && r.decoder.state == d.state && 0 - resolution < r.decoder.pulses < resolution
      && -1 <= r.click <= 1 && d.pulses + step == Worth(resolution, r.click) + r.decoder.pulses
      && r.decoder.value == Unsigned8(d.value + r.click)
  {
    var p := d.pulses + step;
    assert Remainder(p, resolution) == if p == resolution || p == 0 - resolution then 0 else p;
  }

  /** One sample: the step taken is either kept or makes up a click. */
  lemma {:induction false} SampleConserves(d: Decoder, pins: Pins, resolution: Resolution)
    requires resolution < 128 && 0 - resolution < d.pulses < resolution
    ensures var r := Sample(d, pins, resolution);
      && r.decoder.state % 4 == pins && 0 - resolution < r.decoder.pulses < resolution
      && -1 <= r.click <= 1 && d.pulses + Quarter(d.state % 4, pins) == Worth(resolution, r.click) + r.decoder.pulses
      && r.decoder.value == Unsigned8(d.value + r.click)
  {
    if d.state % 4 != pins {
      NewState(d.state, pins);
      AddStepConserves(d.(state := (d.state * 4 + pins) % 256), Quarter(d.state % 4, pins), resolution);
    }
  }

  /** Quarter steps of a number of clicks: their product, click by click. */
  function Total(resolution: int, clicks: int): int
    decreases if clicks >= 0 then clicks else 0 - clicks
  {
    if clicks > 0 then Total(resolution, clicks - 1) + resolution
    else if clicks < 0 then Total(resolution, clicks + 1) - resolution
    else 0
  }

  lemma {:induction false} TotalIs(resolution: int, clicks: int)
    ensures Total(resolution, clicks) == resolution * clicks
    decreases if clicks >= 0 then clicks else 0 - clicks
  {
    if clicks > 0 {
      TotalIs(resolution, clicks - 1);
      assert resolution * clicks == resolution * (clicks - 1) + resolution;
    } else if clicks < 0 {
      TotalIs(resolution, clicks + 1);
      assert resolution * clicks == resolution * (clicks + 1) - resolution;
    }
  }

  lemma {:induction false} Accumulate(n: int, c: int, c': int)
    requires -1 <= c' <= 1
    ensures Total(n, c + c') == Total(n, c) + Worth(n, c')
  {
  }

  lemma {:induction false} CountOn(v: int, c: int, c': int)
    ensures Unsigned8(Unsigned8(v + c) + c') == Unsigned8(v + (c + c'))
  {
    Unsigned8Is(v + c);
    Unsigned8Is(Unsigned8(v + c) + c');
    Unsigned8Is(v + (c + c'));
  }

  lemma {:induction false} SampleAccumulates(d: Decoder, steps: int, before: Result, pins: Pins, resolution: Resolution)
    requires resolution < 128 && 0 - resolution < before.decoder.pulses < resolution
    requires d.pulses + steps == Total(resolution, before.click) + before.decoder.pulses
    requires before.decoder.value == Unsigned8(d.value + before.click)
    ensures var r := Sample(before.decoder, pins, resolution);
      && r.decoder.state % 4 == pins && 0 - resolution < r.decoder.pulses < resolution
      && d.pulses + (steps + Quarter(before.decoder.state % 4, pins))
         == Total(resolution, before.click + r.click) + r.decoder.pulses
      && r.decoder.value == Unsigned8(d.value + (before.click + r.click))
  {
    SampleConserves(before.decoder, pins, resolution);
    var r := Sample(before.decoder, pins, resolution);
    Accumulate(resolution, before.click, r.click);
    CountOn(d.value, before.click, r.click);
  }

  /** The steps taken from `d` on are those of the clicks and the rest, and the counter holds the clicks. */
  predicate AddsUp(d: Decoder, steps: int, last: Pins, r: Result, resolution: Resolution) {
    && r.decoder.state % 4 == last && 0 - resolution < r.decoder.pulses < resolution
    && d.pulses + steps == Total(resolution, r.click) + r.decoder.pulses
    && r.decoder.value == Unsigned8(d.value + r.click)
  }

  lemma {:induction false} NextAddsUp(
      d: Decoder, steps: int, last: Pins, before: Result, pins: Pins, resolution: Resolution, r: Result)
    requires resolution < 128 && AddsUp(d, steps, last, before, resolution)
    requires r == Sample(before.decoder, pins, resolution)
    ensures AddsUp(d, steps + Quarter(last, pins), pins, Result(r.decoder, before.click + r.click), resolution)
  {
    SampleAccumulates(d, steps, before, pins, resolution);
  }

  lemma {:induction false} FollowStep(d: Decoder, history: seq<Pins>, resolution: Resolution)
    requires history != []
    ensures var before := Follow(d, history[..|history| - 1], resolution);
      var r := Sample(before.decoder, history[|history| - 1], resolution);
      Follow(d, history, resolution) == Result(r.decoder, before.click + r.click)
  {
  }

  lemma {:induction false} StepsAdd(
      d: Decoder, history: seq<Pins>, resolution: Resolution, steps: int, last: Pins, r: Result)
    requires resolution < 128 && 0 - resolution < d.pulses < resolution
    requires steps == Steps(d.state % 4, history) && last == Last(d.state % 4, history)
    requires r == Follow(d, history, resolution)
    ensures AddsUp(d, steps, last, r, resolution)
  {
    if history == [] {
      assert Unsigned8(d.value + 0) == d.value && Total(resolution, 0) == 0;
    } else {
      var n := |history| - 1;
      var steps', last' := Steps(d.state % 4, history[..n]), Last(d.state % 4, history[..n]);
      var before := Follow(d, history[..n], resolution);
      StepsAdd(d, history[..n], resolution, steps', last', before);
      StepsStep(d.state % 4, history);
      FollowStep(d, history, resolution);
      NextAddsUp(d, steps', last', before, history[n], resolution, Sample(before.decoder, history[n], resolution));
    }
  }

  /**
   * Conservation: whatever the pins did, the quarter steps seen are those of the
   * clicks handed on and a rest too small for a click; the counter holds the clicks.
   */
  lemma {:induction false} StepsAreClicks(d: Decoder, history: seq<Pins>, resolution: Resolution, r: Result)
    requires resolution < 128 && 0 - resolution < d.pulses < resolution && r == Follow(d, history, resolution)
    ensures r.decoder.state % 4 == Last(d.state % 4, history)
    ensures 0 - resolution < r.decoder.pulses < resolution
    ensures d.pulses + Steps(d.state % 4, history) == resolution * r.click + r.decoder.pulses
    ensures r.decoder.value == (d.value + r.click) % 256
  {
    StepsAdd(d, history, resolution, Steps(d.state % 4, history), Last(d.state % 4, history), r);
    TotalIs(resolution, r.click);
    Unsigned8Is(d.value + r.click);
  }

  function Reversed(s: seq<Pins>): seq<Pins> {
    if s == [] then [] else [s[|s| - 1]] + Reversed(s[..|s| - 1])
  }

  lemma {:induction false} QuarterBack(a: Pins, b: Pins)
    ensures Quarter(b, a) == -Quarter(a, b) && Quarter(a, a) == 0
  {
  }

  lemma {:induction false} StepsConcat(start: Pins, a: seq<Pins>, b: seq<Pins>)
    ensures Steps(start, a + b) == Steps(start, a) + Steps(Last(start, a), b)
  {
    if b == [] {
      assert a + b == a;
    } else {
      assert (a + b)[..|a + b| - 1] == a + b[..|b| - 1];
      StepsConcat(start, a, b[..|b| - 1]);
    }
  }

  /** The way back: the pins passed on a path, latest first, down to the start. */
  function Back(start: Pins, history: seq<Pins>): seq<Pins> {
    if history == [] then [] else Reversed(history[..|history| - 1]) + [start]
  }

  lemma {:induction false} BackStep(start: Pins, history: seq<Pins>)
    requires history != []
    ensures var before := history[..|history| - 1];
      Back(start, history) == [Last(start, before)] + Back(start, before)
  {
  }

  lemma {:induction false} OneStep(from: Pins, to: Pins)
    ensures Steps(from, [to]) == Quarter(from, to)
  {
    assert [to][..0] == [];
  }

  /** Going back over a path takes every quarter step back. */
  lemma {:induction false} BackCancels(start: Pins, history: seq<Pins>)
    ensures Steps(Last(start, history), Back(start, history)) == -Steps(start, history)
  {
    if history != [] {
      var n := |history| - 1;
      var before, end := history[..n], history[n];
      var prev := Last(start, before);
      BackCancels(start, before);
      QuarterBack(prev, end);
      BackStep(start, history);
      StepsConcat(end, [prev], Back(start, before));
      OneStep(end, prev);
      StepsStep(start, history);
    }
  }

  lemma {:induction false} PathCancels(start: Pins, history: seq<Pins>, path: seq<Pins>)
    requires path == history + Back(start, history)
    ensures Steps(start, path) == 0
  {
    StepsConcat(start, history, Back(start, history));
    BackCancels(start, history);
  }

  /** A path without steps on balance hands on no clicks on balance. */
  lemma {:induction false} NoStepsNoClicks(d: Decoder, path: seq<Pins>, resolution: Resolution, r: Result)
    requires resolution < 128 && d.pulses == 0 && Steps(d.state % 4, path) == 0 && r == Follow(d, path, resolution)
    ensures r.click == 0 && r.decoder.pulses == 0 && r.decoder.value == d.value
  {
    StepsAreClicks(d, path, resolution, r);
    NoMultiple(resolution, r.click, r.decoder.pulses);
  }

  /** Turning any way and back again, from rest, hands on no clicks on balance and ends at rest. */
  lemma {:induction false} ThereAndBack(d: Decoder, history: seq<Pins>, resolution: Resolution)
    requires resolution < 128 && d.pulses == 0
    ensures var r := Follow(d, history + Back(d.state % 4, history), resolution);
      r.click == 0 && r.decoder.pulses == 0 && r.decoder.value == d.value
  {
    var path := history + Back(d.state % 4, history);
    PathCancels(d.state % 4, history, path);
    NoStepsNoClicks(d, path, resolution, Follow(d, path, resolution));
  }

  lemma {:induction false} NoMultiple(n: int, k: int, r: int)
    requires n > 0 && n * k + r == 0 && -n < r < n
    ensures k == 0 && r == 0
  {
    assert k >= 1 ==> n * k >= n;
    assert k <= -1 ==> n * k <= -n;
  }

  // ---------------------------------------------------------------- resolutions that do not fit

  /** The pins along an even turn forward. */
  function Forward(n: nat): seq<Pins> {
    if n == 0 then [] else Forward(n - 1) + [Next(Last(0, Forward(n - 1)))]
  }

  const AT_REST := Decoder(0, 0, 0)

  lemma {:induction false} StepForward(d: Decoder, resolution: Resolution)
    requires 0 <= d.pulses < 128 <= resolution
    ensures var r := Sample(d, Next(d.state % 4), resolution);
      && r.decoder.state % 4 == Next(d.state % 4)
      && (d.pulses < 127 ==> r.click == 0 && r.decoder.pulses == d.pulses + 1)
      && (d.pulses == 127 ==> r.decoder.pulses <= 0 && r.click <= 0)
  {
    NewState(d.state, Next(d.state % 4));
    assert Next(d.state % 4) != d.state % 4;
  }

  lemma {:induction false} ForwardSteps(n: nat)
    ensures Steps(0, Forward(n)) == n
  {
    if n > 0 {
      ForwardSteps(n - 1);
      StepsStep(0, Forward(n));
      assert Forward(n)[..|Forward(n)| - 1] == Forward(n - 1);
    }
  }

  lemma {:induction false} ForwardCounts(n: nat, resolution: Resolution)
    requires n < 128 <= resolution
    ensures var r := Follow(AT_REST, Forward(n), resolution);
      r.click == 0 && r.decoder.pulses == n && r.decoder.state % 4 == Last(0, Forward(n))
  {
    if n > 0 {
      ForwardCounts(n - 1, resolution);
      StepForward(Follow(AT_REST, Forward(n - 1), resolution).decoder, resolution);
      assert Forward(n)[..|Forward(n)| - 1] == Forward(n - 1);
    }
  }

  lemma {:induction false} ForwardOverflows(n: nat, resolution: Resolution, before: Decoder)
    requires n > 0 && resolution >= 128 && before.pulses == 127 && before.state % 4 == Last(0, Forward(n - 1))
    requires Follow(AT_REST, Forward(n - 1), resolution) == Result(before, 0)
    ensures var r := Follow(AT_REST, Forward(n), resolution); r.click <= 0 && r.decoder.pulses <= 0
  {
    StepForward(before, resolution);
    assert Forward(n)[..|Forward(n)| - 1] == Forward(n - 1);
  }

  /** A resolution of 128 or more breaks conservation: in the end the step counter overflows. */
  lemma {:induction false} WideResolutionOverflows(resolution: Resolution) returns (history: seq<Pins>)
    requires 128 <= resolution
    ensures var r := Follow(AT_REST, history, resolution);
      Steps(0, history) > 0 && r.click <= 0 && r.decoder.pulses <= 0
  {
    var n: nat :| n == 128;
    history := Forward(n);
    ForwardSteps(n);
    ForwardCounts(n - 1, resolution);
    ForwardOverflows(n, resolution, Follow(AT_REST, Forward(n - 1), resolution).decoder);
  }

  // ---------------------------------------------------------------- the other half of a split keyboard

  /** How far the half with the host moves its count: the difference of two bytes, as a signed byte. */
  function Delta(slave: Count, value: Count): (d: int)
    ensures -128 <= d < 128 && Unsigned8(value + d) == slave
  {
    Signed8(slave - value)
  }

  /** Clicks handed on for the other half, after its counts were fetched one after another. */
  function Fetched(start: int, totals: seq<int>): int {
    if totals == [] then start
    else
      var before := Fetched(start, totals[..|totals| - 1]);
      before + Delta(Unsigned8(totals[|totals| - 1]), Unsigned8(before))
  }

  lemma {:induction false} ByteDifference(total: int, behind: int, t: int, b: int, u: int)
    requires t == total % 256 && b == behind % 256 && u == (t - b + 128) % 256
    ensures behind + (u - 128) == total <==> -128 <= total - behind < 128
  {
  }

  /** One fetch hands on exactly the clicks missed, if and only if they fit a signed byte. */
  lemma {:induction false} CatchesUpExactly(behind: int, total: int)
    ensures behind + Delta(Unsigned8(total), Unsigned8(behind)) == total <==> -128 <= total - behind < 128
  {
    Unsigned8Is(total);
    Unsigned8Is(behind);
    var t: int, b: int := Unsigned8(total), Unsigned8(behind);
    var u: int := Unsigned8(t - b + 128);
    Unsigned8Is(t - b + 128);
    ByteDifference(total, behind, t, b, u);
  }

  function Before(start: int, totals: seq<int>, i: nat): int
    requires i <= |totals|
  {
    if i == 0 then start else totals[i - 1]
  }

  /** The other half moves no further than a signed byte between two fetches. */
  ghost predicate Steady(start: int, totals: seq<int>) {
    forall i :: 0 <= i < |totals| ==> -128 <= totals[i] - Before(start, totals, i) < 128
  }

  /** Then every click it counted is handed on, through any number of counter overflows. */
  lemma {:induction false} NothingMissed(start: int, totals: seq<int>)
    requires Steady(start, totals)
    ensures Fetched(start, totals) == Before(start, totals, |totals|)
  {
    if totals != [] {
      var n := |totals| - 1;
      assert forall i :: 0 <= i < n ==> Before(start, totals[..n], i) == Before(start, totals, i);
      NothingMissed(start, totals[..n]);
      CatchesUpExactly(Fetched(start, totals[..n]), totals[n]);
    }
  }

  /** The order of the pin states in a forward turn: each step counts up, and back down. */
  lemma {:induction false} ForwardIsUp(d: Decoder)
    requires d.state % 4 == 0 && d.pulses == 0
    ensures Follow(d, [2, 3, 1, 0], 4).click == 1 && Follow(d, [1, 3, 2, 0], 4).click == -1
  {
    var up: seq<Pins>, down: seq<Pins> := [2, 3, 1, 0], [1, 3, 2, 0];
    assert up[..3][..2][..1][..0] == [] && down[..3][..2][..1][..0] == [];
    StepsAreClicks(d, up, 4, Follow(d, up, 4));
    StepsAreClicks(d, down, 4, Follow(d, down, 4));
    assert Steps(0, up[..0]) == 0 && Steps(0, down[..0]) == 0;
    assert up[..1][..0] == up[..0] && up[..2][..1] == up[..1] && up[..3][..2] == up[..2];
    assert down[..1][..0] == down[..0] && down[..2][..1] == down[..1] && down[..3][..2] == down[..2];
    assert Steps(0, up[..1]) == 1 && Steps(0, up[..2]) == 2 && Steps(0, up[..3]) == 3 && Steps(0, up) == 4;
    assert Steps(0, down[..1]) == -1 && Steps(0, down[..2]) == -2 && Steps(0, down[..3]) == -3 && Steps(0, down) == -4;
  }
}
