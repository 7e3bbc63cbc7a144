/**
 * A keycode that stays on with all keys up: hands are swapped while a key is down, its
 * mirror image is pressed and so acts as the same position, on another layer.
 */
module SwapClash {
  import opened KeyEvents
  import opened BoardState
  import opened HandSwap
  import Matrix

  const K := KeyPos(0, 0)
  const N := KeyPos(0, 1)
  const L := KeyPos(0, 2)

  /** K and N are each other's mirror image. */
  function Exchange(key: KeyPos): KeyPos { if key == K then N else if key == N then K else key }

  /** L switches layer 1 on while it is down, and K has another keycode there. */
  function TwoLayers(): Keymap {
    Keymap(1, 3, (layer, key) => false,
      (layer, key: KeyPos, tapped) =>
        if key == L then {Layer(1)}
        else if key == K then {Keycode(if layer == 0 then 4 else 5)}
        else {})
  }

  /** K and L go down, hands are swapped, N is typed, and both are released. */
  const SWAPS := [
    KeyOp(K, true), KeyOp(L, true), SetSwap(true), KeyOp(N, true), KeyOp(N, false), KeyOp(K, false), KeyOp(L, false)]

  /** What arrives in record processing. */
  const ACTED := [
    Matrix.KeyChange(K, true), Matrix.KeyChange(L, true), Matrix.KeyChange(K, true), Matrix.KeyChange(K, false),
    Matrix.KeyChange(K, false), Matrix.KeyChange(L, false)]

  function Processed(cs: seq<Matrix.KeyChange>): seq<BoardState.Op> {
    seq(|cs|, i requires 0 <= i < |cs| => Process(cs[i].key, cs[i].pressed, false))
  }

  /** What is known after some operations: what went on, the swap state, and the keys down. */
  predicate Reached(ops: seq<HandSwap.Op>, acted: seq<Matrix.KeyChange>, s: SwapState, down: map<KeyPos, KeyPos>) {
    && Acted(Exchange, ops) == acted && RunSwap(ops) == s && ActsAs(Exchange, ops) == down
    && Matrix.Alternating({}, Changes(ops)) && Matrix.Replay({}, Changes(ops)) == down.Keys
  }

  /** The i-th operation is a key event, the j-th that goes on. */
  lemma {:induction false} NextKey(
      swaps: seq<HandSwap.Op>, i: nat, acted: seq<Matrix.KeyChange>, j: nat,
      s: SwapState, down: map<KeyPos, KeyPos>, s': SwapState, down': map<KeyPos, KeyPos>)
    requires i < |swaps| && j < |acted| && swaps[i].KeyOp? && Reached(swaps[..i], acted[..j], s, down)
    requires var key, pressed := swaps[i].key, swaps[i].pressed;
      var target := Target(Exchange, s, key, pressed);
      && pressed == (key !in down) && acted[j] == Matrix.KeyChange(target, pressed)
      && s' == Next(s, swaps[i]) && down' == if pressed then down[key := target] else down - {key}
    ensures Reached(swaps[..i + 1], acted[..j + 1], s', down')
  {
    assert swaps[..i + 1][..i] == swaps[..i];
    OneMore(Changes(swaps[..i]), Matrix.KeyChange(swaps[i].key, swaps[i].pressed));
  }

  lemma {:induction false} NextSwitch(
      swaps: seq<HandSwap.Op>, i: nat, acted: seq<Matrix.KeyChange>, s: SwapState, down: map<KeyPos, KeyPos>)
    requires i < |swaps| && swaps[i].SetSwap? && Reached(swaps[..i], acted, s, down)
    ensures Reached(swaps[..i + 1], acted, s.(on := swaps[i].on), down)
  {
    assert swaps[..i + 1][..i] == swaps[..i];
    assert acted + [] == acted && Changes(swaps[..i]) + [] == Changes(swaps[..i]);
  }

  const OFF := SwapState(false, {})
  const ON := SwapState(true, {})
  const TWO := map[K := K, L := L]

  lemma {:induction false} BeforeSwitch(swaps: seq<HandSwap.Op>, acted: seq<Matrix.KeyChange>)
    requires swaps == SWAPS && acted == ACTED
    ensures Reached(swaps[..3], acted[..2], ON, TWO)
  {
    assert Reached(swaps[..0], acted[..0], OFF, map[]);
    NextKey(swaps, 0, acted, 0, OFF, map[], OFF, map[K := K]);
    NextKey(swaps, 1, acted, 1, OFF, map[K := K], OFF, TWO);
    NextSwitch(swaps, 2, acted[..2], OFF, TWO);
  }

  const SWAPPED := SwapState(true, {N})
  const THREE := map[K := K, L := L, N := K]

  lemma {:induction false} AfterSwitch(swaps: seq<HandSwap.Op>, acted: seq<Matrix.KeyChange>)
    requires swaps == SWAPS && acted == ACTED && Reached(swaps[..3], acted[..2], ON, TWO)
    ensures Reached(swaps[..7], acted[..6], SWAPPED, map[])
  {
    NextKey(swaps, 3, acted, 2, ON, TWO, SWAPPED, THREE);
    assert THREE - {N} == TWO;
    NextKey(swaps, 4, acted, 3, SWAPPED, THREE, SWAPPED, TWO);
    NextKey(swaps, 5, acted, 4, SWAPPED, TWO, SWAPPED, map[L := L]);
    NextKey(swaps, 6, acted, 5, SWAPPED, map[L := L], SWAPPED, map[]);
  }

  // ---------------------------------------------------------------- the board

  predicate Shows(ops: seq<BoardState.Op>, i: nat, b: Board) {
    i <= |ops| && RunBoard(TwoLayers(), Initial({}), ops[..i]) == b
  }

  lemma {:induction false} NextPress(ops: seq<BoardState.Op>, i: nat, b: Board, key: KeyPos, layer: nat, b': Board)
    requires i < |ops| && Shows(ops, i, b) && ops[i] == Process(key, true, false) && TwoLayers().InMatrix(key)
    requires layer < MAX_LAYER && (layer == 0 || IsActive(b, layer)) && forall l :: IsActive(b, l) ==> l == layer
    requires b' == Board(b.on + TwoLayers().share(layer, key, false), b.defaultLayers, b.source[key := layer])
    ensures Shows(ops, i + 1, b')
  {
    assert ops[..i + 1][..i] == ops[..i];
    assert TopLayer(TwoLayers(), b, key, MAX_LAYER) == layer;
  }

  lemma {:induction false} NextRelease(ops: seq<BoardState.Op>, i: nat, b: Board, key: KeyPos, b': Board)
    requires i < |ops| && Shows(ops, i, b) && ops[i] == Process(key, false, false)
    requires b' == b.(on := b.on - TwoLayers().share(SourceOf(b, key), key, false))
    ensures Shows(ops, i + 1, b')
  {
    assert ops[..i + 1][..i] == ops[..i];
  }

  const B1 := Board({Keycode(4)}, {}, map[K := 0])
  const B2 := Board({Keycode(4), Layer(1)}, {}, map[K := 0, L := 0])
  const B3 := Board({Keycode(4), Layer(1), Keycode(5)}, {}, map[K := 1, L := 0])
  const B4 := Board({Keycode(4), Layer(1)}, {}, map[K := 1, L := 0])
  const B6 := Board({Keycode(4)}, {}, map[K := 1, L := 0])

  lemma {:induction false} TwoPresses(ops: seq<BoardState.Op>)
    requires |ops| == 6 && ops[0] == Process(K, true, false) && ops[1] == Process(L, true, false)
    ensures Shows(ops, 2, B2)
  {
    assert ops[..0] == [];
    NextPress(ops, 0, Initial({}), K, 0, B1);
    NextPress(ops, 1, B1, L, 0, B2);
  }

  lemma {:induction false} ThirdPress(ops: seq<BoardState.Op>)
    requires |ops| == 6 && ops[2] == Process(K, true, false) && Shows(ops, 2, B2)
    ensures Shows(ops, 3, B3)
  {
    NextPress(ops, 2, B2, K, 1, B3);
  }

  lemma {:induction false} Releases(ops: seq<BoardState.Op>)
    requires |ops| == 6 && ops[3] == ops[4] == Process(K, false, false) && ops[5] == Process(L, false, false)
    requires Shows(ops, 3, B3)
    ensures Shows(ops, 6, B6)
  {
    NextRelease(ops, 3, B3, K, B4);
    NextRelease(ops, 4, B4, K, B4);
    NextRelease(ops, 5, B4, L, B6);
  }

  lemma {:induction false} LeftOn(ops: seq<BoardState.Op>)
    requires ops == Processed(ACTED)
    ensures RunBoard(TwoLayers(), Initial({}), ops).on == {Keycode(4)}
  {
    TwoPresses(ops);
    ThirdPress(ops);
    Releases(ops);
    assert ops[..6] == ops;
  }

  /** All keys are up, and what K held on layer 0 is on. */
  lemma {:induction false} ClashSticks(swaps: seq<HandSwap.Op>, ops: seq<BoardState.Op>)
    requires swaps == SWAPS && ops == Processed(Acted(Exchange, swaps))
    ensures Matrix.Alternating({}, Changes(swaps)) && Matrix.Replay({}, Changes(swaps)) == {}
    ensures !NoClash(Exchange, swaps) && TwoLayers().Valid()
    ensures RunBoard(TwoLayers(), Initial({}), ops).on == {Keycode(4)}
  {
    var acted := ACTED;
    BeforeSwitch(swaps, acted);
    AfterSwitch(swaps, acted);
    assert swaps[..7] == swaps && acted[..6] == acted;
    LeftOn(ops);
    assert Target(Exchange, ON, N, true) == K == TWO[K];
    ClashAt(swaps, 3, 7);
  }

  lemma {:induction false} ClashAt(swaps: seq<HandSwap.Op>, i: nat, n: nat)
    requires i < n <= |swaps| && swaps[i].KeyOp? && swaps[i].pressed
    requires Target(Exchange, RunSwap(swaps[..i]), swaps[i].key, true) in ActsAs(Exchange, swaps[..i]).Values
    ensures !NoClash(Exchange, swaps[..n])
  {
    assert swaps[..n][..n - 1] == swaps[..n - 1];
    if i < n - 1 {
      ClashAt(swaps, i, n - 1);
    }
  }
}
