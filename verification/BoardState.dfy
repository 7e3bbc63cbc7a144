/**
 * What processing key records does to the modifiers, registered keycodes and
 * layers of the keyboard, and the proof that nothing gets stuck: whatever is on
 * was put on by a key that is still down.
 */
module BoardState {
  import opened KeyEvents
  import opened Actions

  /** One thing that can be on: a modifier bit, a registered keycode, a layer. */
  datatype Mark = RealMod(bit: nat) | WeakMod(bit: nat) | Keycode(code: Action) | Layer(layer: nat)

  /**
   * The size of the matrix and, for every layer and key, whether the key is
   * transparent there and what it puts on while it is down as a tap or as a hold.
   */
  datatype Keymap = Keymap(
    rows: nat, cols: nat,
    transparent: (nat, KeyPos) -> bool,
    share: (nat, KeyPos, bool) -> set<Mark>)
  {
    predicate InMatrix(key: KeyPos) { key.row < rows && key.col < cols }

    /** Positions outside the matrix have no keycode, so they hold nothing. */
    ghost predicate Valid() {
      forall layer, key, tapped :: !InMatrix(key) ==> share(layer, key, tapped) == {}
    }
  }

  /** What is on, the default layers, and the layer each key was last pressed on. */
  datatype Board = Board(on: set<Mark>, defaultLayers: set<nat>, source: map<KeyPos, nat>)

  function Initial(defaultLayers: set<nat>): Board { Board({}, defaultLayers, map[]) }

  /** Number of layers of a 16-bit layer state. */
  const MAX_LAYER := 16

  predicate IsActive(b: Board, layer: nat) { Layer(layer) in b.on || layer in b.defaultLayers }

  /** The highest active layer below `n` on which the key is not transparent, else 0. */
  function TopLayer(km: Keymap, b: Board, key: KeyPos, n: nat): (layer: nat)
    ensures layer < n || layer == 0
    ensures forall l :: layer < l < n && IsActive(b, l) ==> km.transparent(l, key)
    ensures layer == 0 || (IsActive(b, layer) && !km.transparent(layer, key))
  {
    if n == 0 then 0
    else if IsActive(b, n - 1) && !km.transparent(n - 1, key) then n - 1
    else TopLayer(km, b, key, n - 1)
  }

  function SourceOf(b: Board, key: KeyPos): nat {
    if key in b.source then b.source[key] else 0
  }

  /** Processing one record: a press looks its layer up and remembers it, a release recalls it. */
  function ProcessRecord(km: Keymap, b: Board, key: KeyPos, pressed: bool, tapped: bool): Board {
    if pressed then
      var layer := TopLayer(km, b, key, MAX_LAYER);
      Board(b.on + km.share(layer, key, tapped), b.defaultLayers,
            if km.InMatrix(key) then b.source[key := layer] else b.source)
    else
      b.(on := b.on - km.share(SourceOf(b, key), key, tapped))
  }

  // ---------------------------------------------------------------- runs

  /**
   * What can happen: weak modifiers are cleared (on any arriving press), the
   * default layers change, the keyboard is cleared (which leaves the layers alone),
   * or a record is processed.
   */
  datatype Op =
    | ClearWeakMods
    | SetDefaultLayers(layers: set<nat>)
    | ClearKeyboard
    | Process(key: KeyPos, pressed: bool, tapped: bool)

  function Apply(km: Keymap, b: Board, op: Op): Board {
    match op
    case ClearWeakMods => b.(on := set m | m in b.on && !m.WeakMod?)
    case SetDefaultLayers(layers) => b.(defaultLayers := layers)
    case ClearKeyboard => b.(on := set m | m in b.on && m.Layer?)
    case Process(key, pressed, tapped) => ProcessRecord(km, b, key, pressed, tapped)
  }

  function RunBoard(km: Keymap, b: Board, ops: seq<Op>): Board {
    if ops == [] then b else Apply(km, RunBoard(km, b, ops[..|ops| - 1]), ops[|ops| - 1])
  }

  /** The keys down after the operations, each with whether it was pressed as a tap. */
  function Down(ops: seq<Op>): map<KeyPos, bool> {
    if ops == [] then map[]
    else
      var down, op := Down(ops[..|ops| - 1]), ops[|ops| - 1];
      if !op.Process? then down
      else if op.pressed then down[op.key := op.tapped]
      else down - {op.key}
  }

  /**
   * A press is of a key that is up; the release of a key that is down is as the
   * tap or hold it was pressed as.  A key that is up may be released again.
   */
  predicate IsNext(down: map<KeyPos, bool>, op: Op) {
    op.Process? ==>
      if op.pressed then op.key !in down else op.key in down ==> down[op.key] == op.tapped
  }

  predicate Alternating(ops: seq<Op>) {
    ops == [] || (Alternating(ops[..|ops| - 1]) && IsNext(Down(ops[..|ops| - 1]), ops[|ops| - 1]))
  }

  // ---------------------------------------------------------------- nothing stuck

  /** What a key that is down holds: its share on the layer it was pressed on. */
  function Held(km: Keymap, b: Board, down: map<KeyPos, bool>, key: KeyPos): set<Mark>
    requires key in down
  {
    km.share(SourceOf(b, key), key, down[key])
  }

  /** Everything that is on is held by a key that is down. */
  ghost predicate AllHeld(km: Keymap, b: Board, down: map<KeyPos, bool>) {
    forall m :: m in b.on ==> exists k :: k in down && m in Held(km, b, down, k)
  }

  lemma {:induction false} PressKeepsHeld(km: Keymap, b: Board, down: map<KeyPos, bool>, key: KeyPos, tapped: bool)
    requires km.Valid() && AllHeld(km, b, down) && key !in down
    ensures AllHeld(km, ProcessRecord(km, b, key, true, tapped), down[key := tapped])
  {
    var b', down' := ProcessRecord(km, b, key, true, tapped), down[key := tapped];
    forall m | m in b'.on
      ensures exists k :: k in down' && m in Held(km, b', down', k)
    {
      if m !in Held(km, b', down', key) {
        var k :| k in down && m in Held(km, b, down, k);
        assert m in Held(km, b', down', k);
      }
    }
  }

  lemma {:induction false} ReleaseKeepsHeld(km: Keymap, b: Board, down: map<KeyPos, bool>, key: KeyPos, tapped: bool)
    requires AllHeld(km, b, down) && (key in down ==> down[key] == tapped)
    ensures AllHeld(km, ProcessRecord(km, b, key, false, tapped), down - {key})
  {
    var b', down' := ProcessRecord(km, b, key, false, tapped), down - {key};
    forall m | m in b'.on
      ensures exists k :: k in down' && m in Held(km, b', down', k)
    {
      var k :| k in down && m in Held(km, b, down, k);
      assert m in Held(km, b', down', k);
    }
  }

  lemma {:induction false} ApplyKeepsHeld(km: Keymap, b: Board, ops: seq<Op>, op: Op)
    requires km.Valid() && AllHeld(km, b, Down(ops)) && IsNext(Down(ops), op)
    ensures AllHeld(km, Apply(km, b, op), Down(ops + [op]))
  {
    assert (ops + [op])[..|ops|] == ops;
    match op
    case ClearWeakMods =>
      assert forall k :: k in Down(ops) ==> Held(km, Apply(km, b, op), Down(ops), k) == Held(km, b, Down(ops), k);
    case SetDefaultLayers(_) =>
      assert forall k :: k in Down(ops) ==> Held(km, Apply(km, b, op), Down(ops), k) == Held(km, b, Down(ops), k);
    case ClearKeyboard =>
      assert forall k :: k in Down(ops) ==> Held(km, Apply(km, b, op), Down(ops), k) == Held(km, b, Down(ops), k);
    case Process(key, pressed, tapped) =>
      if pressed {
        PressKeepsHeld(km, b, Down(ops), key, tapped);
      } else {
        ReleaseKeepsHeld(km, b, Down(ops), key, tapped);
      }
  }

  /**
   * Nothing stuck: in every run in which no key is pressed twice without a release
   * and each is released as what it was pressed, every modifier bit, keycode and
   * layer that is on is held by a key that is down, on the layer that key was pressed
   * on, whatever layers were switched in between.
   */
  lemma {:induction false} NothingStuck(km: Keymap, defaultLayers: set<nat>, ops: seq<Op>)
    requires km.Valid() && Alternating(ops)
    ensures AllHeld(km, RunBoard(km, Initial(defaultLayers), ops), Down(ops))
  {
    if ops != [] {
      var before, op := ops[..|ops| - 1], ops[|ops| - 1];
      NothingStuck(km, defaultLayers, before);
      ApplyKeepsHeld(km, RunBoard(km, Initial(defaultLayers), before), before, op);
      assert before + [op] == ops;
    }
  }

  /** With all keys up, no modifier, keycode or layer is left on. */
  lemma {:induction false} AllUpAllOff(km: Keymap, defaultLayers: set<nat>, ops: seq<Op>)
    requires km.Valid() && Alternating(ops) && Down(ops) == map[]
    ensures RunBoard(km, Initial(defaultLayers), ops).on == {}
  {
    NothingStuck(km, defaultLayers, ops);
  }

  /** The operation may take the mark off: a clearing, or the release of a key that holds it. */
  predicate MayTakeOff(km: Keymap, b: Board, op: Op, m: Mark) {
    match op
    case ClearWeakMods => m.WeakMod?
    case SetDefaultLayers(_) => false
    case ClearKeyboard => !m.Layer?
    case Process(key, pressed, tapped) => !pressed && m in km.share(SourceOf(b, key), key, tapped)
  }

  /** None of the operations, from this board on, may take the mark off. */
  predicate NoneTakesOff(km: Keymap, b: Board, ops: seq<Op>, m: Mark) {
    ops == [] ||
      var before, op := ops[..|ops| - 1], ops[|ops| - 1];
      NoneTakesOff(km, b, before, m) && !MayTakeOff(km, RunBoard(km, b, before), op, m)
  }

  /**
   * Held is on: what a pressed key holds on the layer its press resolves to is on, and
   * stays on until a key that holds the same is released or it is cleared.
   */
  lemma {:induction false} HeldIsOn(km: Keymap, b: Board, key: KeyPos, tapped: bool, ops: seq<Op>, m: Mark)
    requires m in km.share(TopLayer(km, b, key, MAX_LAYER), key, tapped)
    requires NoneTakesOff(km, Apply(km, b, Process(key, true, tapped)), ops, m)
    ensures m in RunBoard(km, b, [Process(key, true, tapped)] + ops).on
  {
    var press := Process(key, true, tapped);
    assert [press][..0] == [] && RunBoard(km, b, [press]) == Apply(km, b, press);
    RunBoardConcat(km, b, [press], ops);
    StaysOn(km, Apply(km, b, press), ops, m);
  }

  lemma {:induction false} StaysOn(km: Keymap, b: Board, ops: seq<Op>, m: Mark)
    requires m in b.on && NoneTakesOff(km, b, ops, m)
    ensures m in RunBoard(km, b, ops).on
  {
    if ops != [] {
      StaysOn(km, b, ops[..|ops| - 1], m);
    }
  }

  // ---------------------------------------------------------------- freeing what is left on

  lemma {:induction false} KeepsSource(km: Keymap, b: Board, key: KeyPos, ops: seq<Op>)
    requires forall i :: 0 <= i < |ops| && ops[i].Process? ==> ops[i].key != key
    ensures SourceOf(RunBoard(km, b, ops), key) == SourceOf(b, key)
  {
    if ops != [] {
      KeepsSource(km, b, key, ops[..|ops| - 1]);
    }
  }

  /**
   * Pressing a key and releasing it later, whatever other keys do meanwhile, takes off
   * exactly what it holds on the layer that its press resolves to.  So something that
   * was left on without a key is freed by this if and only if the key holds it there.
   */
  lemma {:induction false} PressReleaseFrees(km: Keymap, b: Board, key: KeyPos, tapped: bool, between: seq<Op>)
    requires km.Valid() && forall i :: 0 <= i < |between| && between[i].Process? ==> between[i].key != key
    ensures var before := RunBoard(km, b, [Process(key, true, tapped)] + between);
      var after := RunBoard(km, b, [Process(key, true, tapped)] + between + [Process(key, false, tapped)]);
      after.on == before.on - km.share(TopLayer(km, b, key, MAX_LAYER), key, tapped)
  {
    var press := Process(key, true, tapped);
    var p := Apply(km, b, press);
    assert [press][..0] == [] && RunBoard(km, b, [press]) == p;
    RunBoardConcat(km, b, [press], between);
    KeepsSource(km, p, key, between);
    var front := [press] + between;
    assert (front + [Process(key, false, tapped)])[..|front|] == front;
  }

  lemma {:induction false} RunBoardConcat(km: Keymap, b: Board, x: seq<Op>, y: seq<Op>)
    ensures RunBoard(km, b, x + y) == RunBoard(km, RunBoard(km, b, x), y)
  {
    if y == [] {
      assert x + y == x;
    } else {
      assert (x + y)[..|x + y| - 1] == x + y[..|y| - 1];
      RunBoardConcat(km, b, x, y[..|y| - 1]);
    }
  }
}
