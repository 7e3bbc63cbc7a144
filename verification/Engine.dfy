/**
 * The key-processing engine as the firmware runs it: modifier bytes, a layer word
 * and the bit-sliced source-layer cache, updated in place.  Every method is proved
 * to do to these what BoardState says.
 */
module Engine {
  import opened KeyEvents
  import opened Actions
  import opened SourceLayers
  import opened BoardState
  import opened LayerWord
  import opened MatrixBits

  // ---------------------------------------------------------------- bit masks as sets

  predicate HasBit(x: bv8, i: int) { 0 <= i < 8 && x & Bit(i) != 0 }

  function Reals(mods: bv8): set<Mark> { set i | 0 <= i < 8 && HasBit(mods, i) :: RealMod(i) }

  function Weaks(mods: bv8): set<Mark> { set i | 0 <= i < 8 && HasBit(mods, i) :: WeakMod(i) }

  /** The layers of a layer word. */
  function Layers(word: nat): set<Mark> { set l | 0 <= l < MAX_LAYER && TestAt(word, l) :: Layer(l) }

  /** (layer_state_t)1 << layer: above layer 15 the bit is shifted out of the word. */
  function LayerBit(layer: nat): (word: nat)
    ensures word < WORD
  {
    if layer < MAX_LAYER then OneAt(layer) else 0
  }

  function Bits(word: nat): set<nat> { set l | 0 <= l < MAX_LAYER && TestAt(word, l) }

  function Codes(codes: set<Action>): set<Mark> { set c | c in codes :: Keycode(c) }

  lemma {:induction false} Or8(x: bv8, y: bv8, b: bv8)
    ensures (x | y) & b != 0 <==> x & b != 0 || y & b != 0
  {
  }

  lemma {:induction false} BitAndNot(x: bv8, y: bv8, i: nat)
    requires i < 8
    ensures (x & !y) & Bit(i) != 0 <==> x & Bit(i) != 0 && y & Bit(i) == 0
  {
  }

  lemma {:induction false} HasBitOr(x: bv8, y: bv8, i: nat)
    ensures HasBit(x | y, i) <==> HasBit(x, i) || HasBit(y, i)
  {
    if i < 8 {
      Or8(x, y, Bit(i));
    }
  }

  lemma {:induction false} HasBitAndNot(x: bv8, y: bv8, i: nat)
    ensures HasBit(x & !y, i) <==> HasBit(x, i) && !HasBit(y, i)
  {
    if i < 8 {
      BitAndNot(x, y, i);
    }
  }

  lemma {:induction false} AddingMods(x: bv8, y: bv8)
    ensures Reals(x | y) == Reals(x) + Reals(y) && Weaks(x | y) == Weaks(x) + Weaks(y)
  {
    forall i | 0 <= i < 8
      ensures HasBit(x | y, i) <==> HasBit(x, i) || HasBit(y, i)
    {
      HasBitOr(x, y, i);
    }
  }

  lemma {:induction false} RemovingMods(x: bv8, y: bv8)
    ensures Reals(x & !y) == Reals(x) - Reals(y) && Weaks(x & !y) == Weaks(x) - Weaks(y)
  {
    forall i | 0 <= i < 8
      ensures HasBit(x & !y, i) <==> HasBit(x, i) && !HasBit(y, i)
    {
      HasBitAndNot(x, y, i);
    }
  }

  /** Marks of four kinds: what is added to one kind, or taken off it, is added to all or taken off all. */
  lemma {:induction false} Regroup(a: set<Mark>, b: set<Mark>, rest: set<Mark>, x: set<Mark>)
    ensures (a + x) + b + rest == a + b + rest + x && a + (b + x) + rest == a + b + rest + x
    ensures x !! b && x !! rest ==> (a - x) + b + rest == a + b + rest - x
    ensures x !! a && x !! rest ==> a + (b - x) + rest == a + b + rest - x
  {
  }

  lemma {:induction false} KindsApart(x: bv8, y: bv8, keys: set<Action>, layers: nat)
    ensures Reals(x) !! Weaks(y) && Reals(x) !! Codes(keys) + Layers(layers) && Weaks(y) !! Codes(keys) + Layers(layers)
  {
  }

  lemma {:induction false} AddingLayer(word: nat, layer: nat)
    ensures Layers(Or(word, LayerBit(layer))) == Layers(word) + Layers(LayerBit(layer))
  {
    forall l | 0 <= l < MAX_LAYER
      ensures TestAt(Or(word, LayerBit(layer)), l) <==> TestAt(word, l) || TestAt(LayerBit(layer), l)
    {
      TestOr(word, LayerBit(layer), l);
    }
  }

  lemma {:induction false} RemovingLayer(word: nat, layer: nat)
    ensures Layers(AndNot(word, LayerBit(layer))) == Layers(word) - Layers(LayerBit(layer))
  {
    forall l | 0 <= l < MAX_LAYER
      ensures TestAt(AndNot(word, LayerBit(layer)), l) <==> TestAt(word, l) && !TestAt(LayerBit(layer), l)
    {
      TestAndNot(word, LayerBit(layer), l);
    }
  }

  lemma {:induction false} NoLayers()
    ensures Layers(0) == {}
  {
    forall l: nat
      ensures !TestAt(0, l)
    {
      TestZero(l);
    }
  }

  lemma {:induction false} NoMods()
    ensures Reals(0) == {} && Weaks(0) == {}
  {
    assert forall i :: !HasBit(0, i);
  }

  // ---------------------------------------------------------------- actions

  predicate IsBasicKeycode(code: Action) { KC_A <= code <= KC_EXSEL }

  /** MOD_BIT(code). */
  function ModBit(code: Action): bv8 { Bit((code & 7) as nat) }

  /** The modifier nibble of an action as it appears in the modifier byte. */
  function KeyMods(a: Action, right: bool): bv8 {
    var mods := ModsOf(a) as bv8;
    if right then mods << 4 else mods
  }

  /** The five-bit layer field of a layer-tap action. */
  function LayerField(a: Action): nat { ((a >> 8) & 0x1F) as nat }

  /**
   * The actions that hold something for as long as the key is down: keys with or
   * without modifiers, momentary layers, layers with modifiers, and tap-or-hold
   * keys.  Toggles, one-shots and layer bit operations are not among them.
   */
  predicate HoldsWhileDown(a: Action) {
    var kind := KindOf(a);
    || kind == ACT_LMODS || kind == ACT_RMODS || kind == ACT_LAYER_MODS
    || ((kind == ACT_LMODS_TAP || kind == ACT_RMODS_TAP) && CodeOf(a) > 1)
    || ((kind == ACT_LAYER_TAP || kind == ACT_LAYER_TAP_EXT)
        && (CodeOf(a) == OP_ON_OFF || !(OP_TAP_TOGGLE <= CodeOf(a) <= OP_ONESHOT)))
  }

  /** What registering a keycode puts on. */
  function CodeMarks(code: Action): set<Mark> {
    if IsBasicKeycode(code) then {Keycode(code)}
    else if IsModifierKeycode(code) then Reals(ModBit(code))
    else {}
  }

  /** What a key with this action holds while it is down as a tap or as a hold. */
  function Share(a: Action, tapped: bool): set<Mark> {
    var kind, code := KindOf(a), CodeOf(a);
    if kind == ACT_LMODS || kind == ACT_RMODS then
      var mods := KeyMods(a, kind == ACT_RMODS);
      (if IsModifierKeycode(code) || code == KC_NO then Reals(mods) else Weaks(mods)) + CodeMarks(code)
    else if kind == ACT_LMODS_TAP || kind == ACT_RMODS_TAP then
      if tapped then CodeMarks(code) else Reals(KeyMods(a, kind == ACT_RMODS_TAP))
    else if kind == ACT_LAYER_MODS then
      Layers(LayerBit(ModsOf(a) as nat)) + Reals((a & 0xFF) as bv8)
    else if kind == ACT_LAYER_TAP || kind == ACT_LAYER_TAP_EXT then
      if code == OP_ON_OFF || !tapped then Layers(LayerBit(LayerField(a))) else CodeMarks(code)
    else {}
  }

  /** The action of a position: outside the matrix there is no keycode. */
  function ActionAt(rows: nat, cols: nat, action: (nat, KeyPos) -> Action, layer: nat, key: KeyPos): Action {
    if key.row < rows && key.col < cols then action(layer, key) else ACTION_NO
  }

  /** The keymap that a table of actions stands for. */
  function KeymapOf(rows: nat, cols: nat, action: (nat, KeyPos) -> Action): Keymap {
    Keymap(rows, cols,
           (l: nat, k: KeyPos) => ActionAt(rows, cols, action, l, k) == ACTION_TRANSPARENT,
           (l: nat, k: KeyPos, t: bool) => Share(ActionAt(rows, cols, action, l, k), t))
  }

  /** Whatever the table says, positions outside the matrix hold nothing. */
  lemma {:induction false} KeymapIsValid(rows: nat, cols: nat, action: (nat, KeyPos) -> Action)
    ensures KeymapOf(rows, cols, action).Valid()
  {
    NoActionHoldsNothing(true);
    NoActionHoldsNothing(false);
  }

  lemma {:induction false} NoActionHoldsNothing(tapped: bool)
    ensures Share(ACTION_NO, tapped) == {} && HoldsWhileDown(ACTION_NO)
  {
    NoMods();
    assert KindOf(ACTION_NO) == ACT_LMODS && CodeOf(ACTION_NO) == KC_NO;
    assert KeyMods(ACTION_NO, false) == 0;
  }

  /** Four planes are enough for every layer number. */
  lemma {:induction false} LayerFits(layer: nat)
    requires layer < MAX_LAYER
    ensures ((layer as bv8) & Low(4)) as nat == layer
  {
    assert layer == 0 || layer == 1 || layer == 2 || layer == 3 || layer == 4 || layer == 5 || layer == 6
           || layer == 7 || layer == 8 || layer == 9 || layer == 10 || layer == 11 || layer == 12
           || layer == 13 || layer == 14 || layer == 15;
  }

  // ---------------------------------------------------------------- the engine

  class KeyEngine {
    const action: (nat, KeyPos) -> Action
    const cache: LayerCache
    var realMods: bv8
    var weakMods: bv8
    var keys: set<Action>
    var layerState: nat
    var defaultLayerState: nat
    ghost var source: map<KeyPos, nat>

    /** The cache holds the layer of every key that was pressed, and 0 for the others. */
    ghost predicate Valid()
      reads this, cache.cells
    {
      && cache.Valid() && cache.bits == 4
      && (forall k :: k in source ==> source[k] < MAX_LAYER && cache.InMatrix(k))
      && (forall k :: cache.LayerOf(k) as nat == if k in source then source[k] else 0)
    }

    /** What is on, as a set of marks. */
    ghost function On(): set<Mark>
      reads this
    {
      Reals(realMods) + Weaks(weakMods) + (Codes(keys) + Layers(layerState))
    }

    ghost function Abs(): Board
      reads this
    {
      Board(On(), Bits(defaultLayerState), source)
    }

    /** action_for_key: outside the matrix every layer gives KC_NO. */
    function ActionForKey(layer: nat, key: KeyPos): Action { ActionAt(cache.rows, cache.cols, action, layer, key) }

    ghost function Map(): Keymap { KeymapOf(cache.rows, cache.cols, action) }

    constructor (rows: nat, cols: nat, action: (nat, KeyPos) -> Action, defaultLayers: nat)
      ensures Valid() && fresh(cache) && fresh(cache.cells) && Abs() == Initial(Bits(defaultLayers))
      ensures Map() == KeymapOf(rows, cols, action)
    {
      this.action := action;
      cache := new LayerCache(rows, cols, 4);
      realMods, weakMods, keys, layerState, defaultLayerState, source := 0, 0, {}, 0, defaultLayers, map[];
      new;
      NoMods();
      NoLayers();
    }

    method AddMods(mods: bv8)
      modifies this`realMods
      ensures On() == old(On()) + Reals(mods)
    {
      AddingMods(realMods, mods);
      Regroup(Reals(realMods), Weaks(weakMods), Codes(keys) + Layers(layerState), Reals(mods));
      realMods := realMods | mods;
    }

    method DelMods(mods: bv8)
      modifies this`realMods
      ensures On() == old(On()) - Reals(mods)
    {
      RemovingMods(realMods, mods);
      KindsApart(mods, weakMods, keys, layerState);
      Regroup(Reals(realMods), Weaks(weakMods), Codes(keys) + Layers(layerState), Reals(mods));
      realMods := realMods & !mods;
    }

    method AddWeakMods(mods: bv8)
      modifies this`weakMods
      ensures On() == old(On()) + Weaks(mods)
    {
      AddingMods(weakMods, mods);
      Regroup(Reals(realMods), Weaks(weakMods), Codes(keys) + Layers(layerState), Weaks(mods));
      weakMods := weakMods | mods;
    }

    method DelWeakMods(mods: bv8)
      modifies this`weakMods
      ensures On() == old(On()) - Weaks(mods)
    {
      RemovingMods(weakMods, mods);
      KindsApart(realMods, mods, keys, layerState);
      Regroup(Reals(realMods), Weaks(weakMods), Codes(keys) + Layers(layerState), Weaks(mods));
      weakMods := weakMods & !mods;
    }

    method ClearWeak()
      modifies this`weakMods
      ensures Abs() == Apply(Map(), old(Abs()), ClearWeakMods)
      ensures forall m :: m in On() <==> m in old(On()) && !m.WeakMod?
    {
      weakMods := 0;
      NoMods();
    }

    /** clear_keyboard: modifiers and keys, but not the layers. */
    method ClearKeyboard()
      modifies this`realMods, this`weakMods, this`keys
      ensures Abs() == Apply(Map(), old(Abs()), BoardState.ClearKeyboard)
      ensures forall m :: m in On() <==> m in old(On()) && m.Layer?
    {
      realMods, keys, weakMods := 0, {}, 0;
      NoMods();
    }

    method LayerOn(layer: nat)
      modifies this`layerState
      ensures On() == old(On()) + Layers(LayerBit(layer))
    {
      AddingLayer(layerState, layer);
      layerState := Or(layerState, LayerBit(layer));
    }

    method LayerOff(layer: nat)
      modifies this`layerState
      ensures On() == old(On()) - Layers(LayerBit(layer))
    {
      RemovingLayer(layerState, layer);
      layerState := AndNot(layerState, LayerBit(layer));
    }

    method RegisterCode(code: Action)
      modifies this`realMods, this`keys
      ensures On() == old(On()) + CodeMarks(code)
    {
      if code == KC_NO {
      } else if IsBasicKeycode(code) {
        keys := keys + {code};
      } else if IsModifierKeycode(code) {
        AddMods(ModBit(code));
      }
    }

    method UnregisterCode(code: Action)
      modifies this`realMods, this`keys
      ensures On() == old(On()) - CodeMarks(code)
    {
      if code == KC_NO {
      } else if IsBasicKeycode(code) {
        keys := keys - {code};
      } else if IsModifierKeycode(code) {
        DelMods(ModBit(code));
      }
    }

    method LayerSwitchGetLayer(key: KeyPos) returns (layer: nat)
      ensures layer < MAX_LAYER && layer == TopLayer(Map(), Abs(), key, MAX_LAYER)
    {
      var layers := Or(layerState, defaultLayerState);
      var i := MAX_LAYER;
      while i > 0
        invariant 0 <= i <= MAX_LAYER
        invariant TopLayer(Map(), Abs(), key, i) == TopLayer(Map(), Abs(), key, MAX_LAYER)
      {
        i := i - 1;
        TestOr(layerState, defaultLayerState, i);
        MaskTest(layers, i);
        assert IsActive(Abs(), i) <==> TestAt(layers, i);
        if And(layers, OneAt(i)) != 0 && ActionForKey(i, key) != ACTION_TRANSPARENT {
          return i;
        }
      }
      return 0;
    }

    method Remember(key: KeyPos, layer: nat)
      requires Valid() && layer < MAX_LAYER
      modifies this`source, cache.cells
      ensures Valid() && source == if cache.InMatrix(key) then old(source)[key := layer] else old(source)
    {
      LayerFits(layer);
      cache.Update(key, layer as bv8);
      if cache.InMatrix(key) {
        source := source[key := layer];
      }
    }

    /** On a press, looks the layer up and remembers it; on a release, recalls it. */
    method StoreOrGetAction(pressed: bool, key: KeyPos) returns (a: Action)
      requires Valid()
      modifies this`source, cache.cells
      ensures Valid() && On() == old(On())
      ensures source == if pressed && cache.InMatrix(key)
                        then old(source)[key := TopLayer(Map(), old(Abs()), key, MAX_LAYER)] else old(source)
      ensures a == ActionForKey(if pressed then TopLayer(Map(), old(Abs()), key, MAX_LAYER)
                                else SourceOf(old(Abs()), key), key)
    {
      if pressed {
        var layer := LayerSwitchGetLayer(key);
        Remember(key, layer);
        return ActionForKey(layer, key);
      } else {
        var layer := cache.Read(key);
        return ActionForKey(layer as nat, key);
      }
    }

    method ProcessAction(pressed: bool, tapCount: nat, a: Action)
      requires HoldsWhileDown(a)
      modifies this`realMods, this`weakMods, this`keys, this`layerState
      ensures On() == if pressed then old(On()) + Share(a, tapCount > 0) else old(On()) - Share(a, tapCount > 0)
    {
      var kind, code := KindOf(a), CodeOf(a);
      if kind == ACT_LMODS || kind == ACT_RMODS {
        ProcessKey(pressed, KeyMods(a, kind == ACT_RMODS), code);
      } else if kind == ACT_LMODS_TAP || kind == ACT_RMODS_TAP {
        var mods := KeyMods(a, kind == ACT_RMODS_TAP);
        if pressed {
          if tapCount > 0 {
            RegisterCode(code);
          } else {
            AddMods(mods);
          }
        } else {
          if tapCount > 0 {
            UnregisterCode(code);
          } else {
            DelMods(mods);
          }
        }
      } else if kind == ACT_LAYER_MODS {
        var layer := ModsOf(a) as nat;
        if pressed {
          LayerOn(layer);
          AddMods((a & 0xFF) as bv8);
        } else {
          DelMods((a & 0xFF) as bv8);
          LayerOff(layer);
        }
      } else {
        ProcessLayerTap(pressed, tapCount, LayerField(a), code);
      }
    }

    /** A key with modifiers: real ones if the key is itself a modifier or nothing, weak ones otherwise. */
    method ProcessKey(pressed: bool, mods: bv8, code: Action)
      modifies this`realMods, this`weakMods, this`keys
      ensures var share := (if IsModifierKeycode(code) || code == KC_NO then Reals(mods) else Weaks(mods))
                           + CodeMarks(code);
        On() == if pressed then old(On()) + share else old(On()) - share
    {
      NoMods();
      if pressed {
        if mods != 0 {
          if IsModifierKeycode(code) || code == KC_NO {
            AddMods(mods);
          } else {
            AddWeakMods(mods);
          }
        }
        RegisterCode(code);
      } else {
        UnregisterCode(code);
        if mods != 0 {
          if IsModifierKeycode(code) || code == KC_NO {
            DelMods(mods);
          } else {
            DelWeakMods(mods);
          }
        }
      }
    }

    /** A momentary layer, or a layer on hold with a keycode on tap. */
    method ProcessLayerTap(pressed: bool, tapCount: nat, layer: nat, code: Action)
      modifies this`realMods, this`keys, this`layerState
      ensures var share := if code == OP_ON_OFF || tapCount == 0 then Layers(LayerBit(layer)) else CodeMarks(code);
        On() == if pressed then old(On()) + share else old(On()) - share
    {
      if code == OP_ON_OFF {
        if pressed {
          LayerOn(layer);
        } else {
          LayerOff(layer);
        }
      } else if pressed {
        if tapCount > 0 {
          RegisterCode(code);
        } else {
          LayerOn(layer);
        }
      } else {
        if tapCount > 0 {
          UnregisterCode(code);
        } else {
          LayerOff(layer);
        }
      }
    }

    /** The keymap has only actions that hold while the key is down. */
    ghost predicate AllHoldWhileDown() {
      forall layer, key :: cache.InMatrix(key) ==> HoldsWhileDown(action(layer, key))
    }

    lemma {:induction false} EveryActionHolds(layer: nat, key: KeyPos)
      requires AllHoldWhileDown()
      ensures HoldsWhileDown(ActionForKey(layer, key))
    {
      NoActionHoldsNothing(true);
    }

    /** Processing one record does to the board what BoardState says. */
    method ProcessRecord(record: Record)
      requires Valid() && AllHoldWhileDown()
      modifies this, cache.cells
      ensures Valid()
      ensures !record.event.IsTick() ==>
        Abs() == BoardState.ProcessRecord(
          Map(), old(Abs()), record.event.key, record.event.pressed, record.tap.count > 0)
      ensures record.event.IsTick() ==> Abs() == old(Abs())
    {
      if record.event.IsTick() {
        return;
      }
      var a := StoreOrGetAction(record.event.pressed, record.event.key);
      EveryActionHolds(if record.event.pressed then TopLayer(Map(), old(Abs()), record.event.key, MAX_LAYER)
                       else SourceOf(old(Abs()), record.event.key), record.event.key);
      ProcessAction(record.event.pressed, record.tap.count, a);
    }
  }
}
