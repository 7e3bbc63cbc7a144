/**
 * Swapping hands: while it is on, a pressed key acts as its mirror image.  One bit
 * per key remembers whether its press was swapped, so that its release is treated
 * alike whatever was switched in between.
 */
module HandSwap {
  import opened KeyEvents
  import opened SourceLayers
  import Matrix

  datatype SwapState = SwapState(on: bool, swapped: set<KeyPos>)

  datatype Op = SetSwap(on: bool) | KeyOp(key: KeyPos, pressed: bool)

  /** Whether this event is swapped: a press by the switch, a release by what its press was. */
  predicate DoSwap(s: SwapState, key: KeyPos, pressed: bool) {
    if pressed then s.on else key in s.swapped
  }

  function Next(s: SwapState, op: Op): SwapState {
    match op
    case SetSwap(on) => s.(on := on)
    case KeyOp(key, pressed) =>
      s.(swapped := if DoSwap(s, key, pressed) then s.swapped + {key} else s.swapped - {key})
  }

  function RunSwap(ops: seq<Op>): SwapState {
    if ops == [] then SwapState(false, {}) else Next(RunSwap(ops[..|ops| - 1]), ops[|ops| - 1])
  }

  /** Whether the i-th operation, a key event, is swapped. */
  predicate IsSwapped(ops: seq<Op>, i: nat)
    requires i < |ops| && ops[i].KeyOp?
  {
    DoSwap(RunSwap(ops[..i]), ops[i].key, ops[i].pressed)
  }

  lemma {:induction false} RemembersPress(ops: seq<Op>, i: nat, j: nat)
    requires i < j <= |ops| && ops[i].KeyOp? && ops[i].pressed
    requires forall m :: i < m < j ==> !(ops[m].KeyOp? && ops[m].key == ops[i].key && ops[m].pressed)
    ensures ops[i].key in RunSwap(ops[..j]).swapped <==> IsSwapped(ops, i)
    decreases j
  {
    assert ops[..j][..j - 1] == ops[..j - 1];
    if j > i + 1 {
      RemembersPress(ops, i, j - 1);
    }
  }

  /** In every run, a release is swapped exactly when the last press of its key was. */
  lemma {:induction false} ReleaseFollowsPress(ops: seq<Op>, i: nat, j: nat)
    requires i < j < |ops| && ops[i].KeyOp? && ops[i].pressed
    requires ops[j] == KeyOp(ops[i].key, false)
    requires forall m :: i < m < j ==> !(ops[m].KeyOp? && ops[m].key == ops[i].key && ops[m].pressed)
    ensures IsSwapped(ops, j) <==> IsSwapped(ops, i)
  {
    RemembersPress(ops, i, j);
  }

  /** A press is swapped exactly when swapping was last switched on. */
  lemma {:induction false} PressFollowsSwitch(ops: seq<Op>, i: nat)
    requires i < |ops| && ops[i].KeyOp? && ops[i].pressed
    ensures (forall j :: 0 <= j < i ==> !ops[j].SetSwap?) ==> !IsSwapped(ops, i)
    ensures forall j :: 0 <= j < i && ops[j].SetSwap? && (forall k :: j < k < i ==> !ops[k].SetSwap?) ==>
      (IsSwapped(ops, i) <==> ops[j].on)
  {
    SwitchedAs(ops, i);
  }

  lemma {:induction false} SwitchedAs(ops: seq<Op>, i: nat)
    requires i <= |ops|
    ensures (forall j :: 0 <= j < i ==> !ops[j].SetSwap?) ==> !RunSwap(ops[..i]).on
    ensures forall j :: 0 <= j < i && ops[j].SetSwap? && (forall k :: j < k < i ==> !ops[k].SetSwap?) ==>
      RunSwap(ops[..i]).on == ops[j].on
  {
    if i > 0 {
      SwitchedAs(ops, i - 1);
      assert ops[..i][..i - 1] == ops[..i - 1];
    }
  }

  // ---------------------------------------------------------------- what the keys act as

  type Mirror = KeyPos -> KeyPos

  /** The position that a key event acts on. */
  function Target(mirror: Mirror, s: SwapState, key: KeyPos, pressed: bool): KeyPos {
    if DoSwap(s, key, pressed) then mirror(key) else key
  }

  /** The changes of the matrix among the operations. */
  function Changes(ops: seq<Op>): seq<Matrix.KeyChange> {
    if ops == [] then []
    else
      var op := ops[|ops| - 1];
      Changes(ops[..|ops| - 1]) + (if op.KeyOp? then [Matrix.KeyChange(op.key, op.pressed)] else [])
  }

  /** The changes as they go on from here, at the positions the keys act as. */
  function Acted(mirror: Mirror, ops: seq<Op>): seq<Matrix.KeyChange> {
    if ops == [] then []
    else
      var before, op := ops[..|ops| - 1], ops[|ops| - 1];
      Acted(mirror, before)
      + (if op.KeyOp? then [Matrix.KeyChange(Target(mirror, RunSwap(before), op.key, op.pressed), op.pressed)] else [])
  }

  /** The keys down, each with the position it acts as. */
  function ActsAs(mirror: Mirror, ops: seq<Op>): map<KeyPos, KeyPos> {
    if ops == [] then map[]
    else
      var before, op := ops[..|ops| - 1], ops[|ops| - 1];
      var down := ActsAs(mirror, before);
      if !op.KeyOp? then down
      else if op.pressed then down[op.key := Target(mirror, RunSwap(before), op.key, true)]
      else down - {op.key}
  }

  /** No key is pressed that would act as a position another key acts as. */
  predicate NoClash(mirror: Mirror, ops: seq<Op>) {
    ops == [] ||
      var before, op := ops[..|ops| - 1], ops[|ops| - 1];
      NoClash(mirror, before)
      && (op.KeyOp? && op.pressed ==> Target(mirror, RunSwap(before), op.key, true) !in ActsAs(mirror, before).Values)
  }

  /** A key that is down is released as the position it acts as. */
  lemma {:induction false} ActsBySwap(mirror: Mirror, ops: seq<Op>, key: KeyPos)
    requires key in ActsAs(mirror, ops)
    ensures ActsAs(mirror, ops)[key] == Target(mirror, RunSwap(ops), key, false)
  {
    var before, op := ops[..|ops| - 1], ops[|ops| - 1];
    if !(op.KeyOp? && op.key == key) {
      ActsBySwap(mirror, before, key);
    }
  }

  lemma {:induction false} DownAsChanged(mirror: Mirror, ops: seq<Op>)
    ensures ActsAs(mirror, ops).Keys == Matrix.Replay({}, Changes(ops))
  {
    if ops != [] {
      var before, op := ops[..|ops| - 1], ops[|ops| - 1];
      DownAsChanged(mirror, before);
      if op.KeyOp? {
        OneMore(Changes(before), Matrix.KeyChange(op.key, op.pressed));
      } else {
        assert Changes(before) + [] == Changes(before);
      }
    }
  }

  lemma {:induction false} OneMore(cs: seq<Matrix.KeyChange>, c: Matrix.KeyChange)
    ensures var down := Matrix.Replay({}, cs);
      && Matrix.Replay({}, cs + [c]) == (if c.pressed then down + {c.key} else down - {c.key})
      && (Matrix.Alternating({}, cs + [c]) <==> Matrix.Alternating({}, cs) && c.pressed == (c.key !in down))
  {
    assert (cs + [c])[..|cs|] == cs;
  }

  predicate Distinct(m: map<KeyPos, KeyPos>) { forall k, k' :: k in m && k' in m && k != k' ==> m[k] != m[k'] }

  lemma {:induction false} ReleaseValues(m: map<KeyPos, KeyPos>, key: KeyPos)
    requires Distinct(m) && key in m
    ensures (m - {key}).Values == m.Values - {m[key]} && Distinct(m - {key})
  {
    forall v | v in m.Values - {m[key]}
      ensures v in (m - {key}).Values
    {
      var k :| k in m && m[k] == v;
      assert k != key && (m - {key})[k] == v;
    }
  }

  lemma {:induction false} PressValues(m: map<KeyPos, KeyPos>, key: KeyPos, target: KeyPos)
    requires Distinct(m) && key !in m && target !in m.Values
    ensures m[key := target].Values == m.Values + {target} && Distinct(m[key := target])
  {
    assert m[key := target][key] == target;
    assert forall k :: k in m ==> m[key := target][k] == m[k];
  }

  /** Without a clash, the positions acted on alternate, and those down are what the keys down act as. */
  lemma {:induction false} NoClashAlternates(mirror: Mirror, ops: seq<Op>)
    requires Matrix.Alternating({}, Changes(ops)) && NoClash(mirror, ops)
    ensures Matrix.Alternating({}, Acted(mirror, ops)) && Distinct(ActsAs(mirror, ops))
    ensures Matrix.Replay({}, Acted(mirror, ops)) == ActsAs(mirror, ops).Values
  {
    if ops != [] {
      var before, op := ops[..|ops| - 1], ops[|ops| - 1];
      var down := ActsAs(mirror, before);
      if op.KeyOp? {
        OneMore(Changes(before), Matrix.KeyChange(op.key, op.pressed));
        DownAsChanged(mirror, before);
        NoClashAlternates(mirror, before);
        var target := Target(mirror, RunSwap(before), op.key, op.pressed);
        OneMore(Acted(mirror, before), Matrix.KeyChange(target, op.pressed));
        if op.pressed {
          PressValues(down, op.key, target);
        } else {
          ActsBySwap(mirror, before, op.key);
          ReleaseValues(down, op.key);
        }
      } else {
        assert Changes(before) + [] == Changes(before) && Acted(mirror, before) + [] == Acted(mirror, before);
        NoClashAlternates(mirror, before);
      }
    }
  }

  /**
   * The changes of a matrix, whose keys alternate, still do so after swapping if and
   * only if no key is pressed that acts as a position another key acts as.
   */
  lemma {:induction false} AlternatesExactly(mirror: Mirror, ops: seq<Op>)
    requires Matrix.Alternating({}, Changes(ops))
    ensures Matrix.Alternating({}, Acted(mirror, ops)) <==> NoClash(mirror, ops)
  {
    if NoClash(mirror, ops) {
      NoClashAlternates(mirror, ops);
    } else {
      var before, op := ops[..|ops| - 1], ops[|ops| - 1];
      if op.KeyOp? {
        OneMore(Changes(before), Matrix.KeyChange(op.key, op.pressed));
        OneMore(Acted(mirror, before),
                Matrix.KeyChange(Target(mirror, RunSwap(before), op.key, op.pressed), op.pressed));
      } else {
        assert Changes(before) + [] == Changes(before) && Acted(mirror, before) + [] == Acted(mirror, before);
      }
      AlternatesExactly(mirror, before);
      if NoClash(mirror, before) {
        NoClashAlternates(mirror, before);
      }
    }
  }

  /** Swapping is switched only while no key is down. */
  predicate SwitchedAtRest(mirror: Mirror, ops: seq<Op>) {
    ops == [] ||
      var before, op := ops[..|ops| - 1], ops[|ops| - 1];
      SwitchedAtRest(mirror, before) && (op.SetSwap? ==> ActsAs(mirror, before) == map[] || op.on == RunSwap(before).on)
  }

  /** Then all keys down were swapped, or none was. */
  lemma {:induction false} AllAlike(mirror: Mirror, ops: seq<Op>, key: KeyPos)
    requires SwitchedAtRest(mirror, ops) && key in ActsAs(mirror, ops)
    ensures key in RunSwap(ops).swapped <==> RunSwap(ops).on
  {
    var before, op := ops[..|ops| - 1], ops[|ops| - 1];
    if !(op.KeyOp? && op.key == key) {
      AllAlike(mirror, before, key);
    }
  }

  /** So with a mirror that takes no two keys to one, nothing clashes. */
  lemma {:induction false} RestMeansNoClash(mirror: Mirror, ops: seq<Op>)
    requires forall k, k' :: mirror(k) == mirror(k') ==> k == k'
    requires Matrix.Alternating({}, Changes(ops)) && SwitchedAtRest(mirror, ops)
    ensures NoClash(mirror, ops)
  {
    if ops != [] {
      var before, op := ops[..|ops| - 1], ops[|ops| - 1];
      if op.KeyOp? {
        OneMore(Changes(before), Matrix.KeyChange(op.key, op.pressed));
        DownAsChanged(mirror, before);
        var down := ActsAs(mirror, before);
        forall k | k in down && op.pressed
          ensures down[k] != Target(mirror, RunSwap(before), op.key, true)
        {
          ActsBySwap(mirror, before, k);
          AllAlike(mirror, before, k);
        }
      } else {
        assert Changes(before) + [] == Changes(before);
      }
      RestMeansNoClash(mirror, before);
    }
  }

  // ---------------------------------------------------------------- the bit array

  /** A byte with bit `n` set or cleared. */
  function PutBit(c: bv8, on: bool, n: nat): (c': bv8)
    requires n < 8
    ensures TestBit(c', n) == on
  {
    if on then c | Bit(n) else c & !Bit(n)
  }

  lemma {:induction false} PutBitKeepsOthers(c: bv8, on: bool, n: nat, m: nat)
    requires n < 8 && m < 8 && m != n
    ensures TestBit(PutBit(c, on, n), m) == TestBit(c, m)
  {
    BitsDisjoint(n, m);
    KeepsOther(c, Bit(n), Bit(m));
  }

  lemma {:induction false} KeepsOther(c: bv8, b: bv8, other: bv8)
    requires b & other == 0
    ensures (c | b) & other == c & other && (c & !b) & other == c & other
  {
  }

  class Swapper {
    const rows: nat
    const cols: nat
    const mirror: Mirror
    const bits: array<bv8>
    var swapHands: bool

    ghost predicate Valid() { bits.Length * 8 >= rows * cols }

    predicate InMatrix(key: KeyPos) { key.row < rows && key.col < cols }

    predicate BitAt(index: nat)
      requires index / 8 < bits.Length
      reads bits
    {
      TestBit(bits[index / 8], index % 8)
    }

    ghost function Abs(): SwapState
      requires Valid()
      reads this, bits
    {
      SwapState(swapHands,
                set r, c | 0 <= r < rows && 0 <= c < cols && BitAt(EntryNumber(rows, cols, KeyPos(r, c)))
                  :: KeyPos(r, c))
    }

    constructor (rows: nat, cols: nat, mirror: Mirror)
      ensures Valid() && fresh(bits) && Abs() == SwapState(false, {})
      ensures this.rows == rows && this.cols == cols && this.mirror == mirror
    {
      this.rows, this.cols, this.mirror := rows, cols, mirror;
      bits := new bv8[(rows * cols + 7) / 8](_ => 0);
      swapHands := false;
      new;
      assert forall n: nat :: n < 8 ==> !TestBit(0, n);
    }

    method SetSwapState(index: nat, on: bool)
      requires index / 8 < bits.Length
      modifies bits
      ensures BitAt(index) == on
      ensures forall i: nat :: i / 8 < bits.Length && i != index ==> BitAt(i) == old(BitAt(i))
    {
      var k, n := index / 8, index % 8;
      ghost var c := bits[k];
      bits[k] := PutBit(bits[k], on, n);
      forall i: nat | i / 8 == k && i != index
        ensures TestBit(bits[k], i % 8) == TestBit(c, i % 8)
      {
        PutBitKeepsOthers(c, on, n, i % 8);
      }
    }

    /** Gives the position the event acts on, and remembers the decision. */
    method ProcessHandSwap(key: KeyPos, pressed: bool) returns (target: KeyPos)
      requires Valid()
      modifies bits
      ensures InMatrix(key) ==> Abs() == Next(old(Abs()), KeyOp(key, pressed))
      ensures InMatrix(key) ==> target == Target(mirror, old(Abs()), key, pressed)
      ensures !InMatrix(key) ==> Abs() == old(Abs()) && target == key
    {
      target := key;
      if key.row < rows && key.col < cols {
        var index := EntryNumber(rows, cols, key);
        var doSwap := if pressed then swapHands else BitAt(index);
        if doSwap {
          target := mirror(key);
          SetSwapState(index, true);
        } else {
          SetSwapState(index, false);
        }
        forall r, c | 0 <= r < rows && 0 <= c < cols && KeyPos(r, c) != key
          ensures BitAt(EntryNumber(rows, cols, KeyPos(r, c))) == old(BitAt(EntryNumber(rows, cols, KeyPos(r, c))))
        {
          if EntryNumber(rows, cols, KeyPos(r, c)) == index {
            RowMajorInjective(cols, r, c, key.row, key.col);
          }
        }
      }
    }
  }
}
