/**
 * The action words as a keymap builds them, and what keys with these words hold and
 * do, told from the numbers they were built from.
 */
module ActionWords {
  import opened Actions
  import opened BoardState
  import opened Engine
  import opened SourceLayers
  import opened LayerWord
  import opened MatrixBits

  /** A word of a four-bit kind, four modifier or layer bits, and an eight-bit code. */
  function Word(kind: Action, mods: Action, code: Action): Action { (kind << 12) | (mods << 8) | code }

  predicate AreFields(kind: Action, mods: Action, code: Action) { kind < 16 && mods < 16 && code < 256 }

  lemma {:induction false} FieldsOf(kind: Action, mods: Action, code: Action)
    requires AreFields(kind, mods, code)
    ensures var a := Word(kind, mods, code); KindOf(a) == kind && ModsOf(a) == mods && CodeOf(a) == code
  {
  }

  /** Every word is built from its fields. */
  lemma {:induction false} EveryWord(a: Action)
    ensures AreFields(KindOf(a), ModsOf(a), CodeOf(a)) && a == Word(KindOf(a), ModsOf(a), CodeOf(a))
    ensures forall k, m, c :: AreFields(k, m, c) && a == Word(k, m, c) ==>
      k == KindOf(a) && m == ModsOf(a) && c == CodeOf(a)
  {
  }

  /** Which words start a tap-or-hold decision. */
  lemma {:induction false} TapWords(kind: Action, mods: Action, code: Action)
    requires AreFields(kind, mods, code)
    ensures IsTapAction(Word(kind, mods, code)) <==>
      || ((kind == 2 || kind == 3 || kind == 10 || kind == 11) && (code < 0xE8 || code == 0xF0 || code == 0xF4))
      || (kind == 6 && (code < 0xE8 || code == 0xF1))
  {
    FieldsOf(kind, mods, code);
  }

  /** Which words hold back the release of their key behind an undecided one. */
  lemma {:induction false} RetainedWords(kind: Action, mods: Action, code: Action, tapCount: nat)
    requires AreFields(kind, mods, code)
    ensures IsRetained(Word(kind, mods, code), tapCount) <==>
      || (kind < 2 && ((mods != 0 && code == 0) || 0xE0 <= code < 0xE8))
      || ((kind == 2 || kind == 3) && ((mods != 0 && tapCount == 0) || 0xE0 <= code < 0xE8))
      || ((kind == 10 || kind == 11) && (code < 0xF0 || 0xF1 <= code <= 0xF3))
  {
    FieldsOf(kind, mods, code);
  }

  // ---------------------------------------------------------------- what keys hold

  /** The i-th of the four modifier bits: control, shift, alt, gui. */
  predicate InNibble(mods: Action, i: nat) {
    (i == 0 && mods & 1 != 0) || (i == 1 && mods & 2 != 0) || (i == 2 && mods & 4 != 0) || (i == 3 && mods & 8 != 0)
  }

  /** The modifier byte of left or right modifiers. */
  lemma {:induction false} ModsByte(kind: Action, mods: Action, code: Action, right: bool, i: nat)
    requires AreFields(kind, mods, code)
    ensures HasBit(KeyMods(Word(kind, mods, code), right), i)
            <==> if right then 4 <= i && InNibble(mods, i - 4) else InNibble(mods, i)
  {
    FieldsOf(kind, mods, code);
    NibbleLow(mods, i);
    NibbleHigh(mods, i);
  }

  lemma {:induction false} NibbleLow(mods: Action, i: nat)
    requires mods < 16
    ensures HasBit(mods as bv8, i) <==> InNibble(mods, i)
  {
    if i == 0 {
    } else if i == 1 {
    } else if i == 2 {
    } else if i == 3 {
    } else if i < 8 {
      assert i == 4 || i == 5 || i == 6 || i == 7;
    }
  }

  lemma {:induction false} NibbleHigh(mods: Action, i: nat)
    requires mods < 16
    ensures HasBit((mods as bv8) << 4, i) <==> 4 <= i && InNibble(mods, i - 4)
  {
    if i < 4 {
      assert i == 0 || i == 1 || i == 2 || i == 3;
    } else if i == 4 {
    } else if i == 5 {
    } else if i == 6 {
    } else if i == 7 {
    }
  }

  /** Left modifiers are bits 0 to 3, right ones bits 4 to 7. */
  function ModNumbers(mods: Action, right: bool): set<nat> {
    set i | 0 <= i < 4 && InNibble(mods, i) :: if right then i + 4 else i
  }

  lemma {:induction false} ModsAre(kind: Action, mods: Action, code: Action, right: bool)
    requires AreFields(kind, mods, code)
    ensures var byte := KeyMods(Word(kind, mods, code), right);
      && Reals(byte) == (set i | i in ModNumbers(mods, right) :: RealMod(i))
      && Weaks(byte) == (set i | i in ModNumbers(mods, right) :: WeakMod(i))
  {
    var byte := KeyMods(Word(kind, mods, code), right);
    forall i: nat
      ensures HasBit(byte, i) <==> i in ModNumbers(mods, right)
    {
      ModsByte(kind, mods, code, right, i);
      if right && 4 <= i && InNibble(mods, i - 4) {
        assert i == (i - 4) + 4;
      }
    }
  }

  /** The keycodes of the eight modifiers: left control, shift, alt and gui, then the right ones. */
  const MODIFIERS: seq<Action> := [0xE0, 0xE1, 0xE2, 0xE3, 0xE4, 0xE5, 0xE6, 0xE7]

  /** The i-th modifier keycode sets the i-th modifier bit. */
  lemma {:induction false} ModifierMark(i: nat)
    requires i < 8
    ensures CodeMarks(MODIFIERS[i]) == {RealMod(i)}
  {
    if i == 0 {
    } else if i == 1 {
    } else if i == 2 {
    } else if i == 3 {
    } else if i == 4 {
    } else if i == 5 {
    } else if i == 6 {
    } else {
      assert i == 7;
    }
  }

  /** Registering a keycode: a basic one is registered, a modifier's bit is set, nothing for others. */
  lemma {:induction false} RegisteredMarks(code: Action)
    requires code < 256
    ensures 0x04 <= code <= 0xA4 ==> CodeMarks(code) == {Keycode(code)}
    ensures forall i :: 0 <= i < 8 && code == MODIFIERS[i] ==> CodeMarks(code) == {RealMod(i)}
    ensures code < 0x04 || 0xA4 < code < 0xE0 || 0xE8 <= code ==> CodeMarks(code) == {}
  {
    forall i | 0 <= i < 8 && code == MODIFIERS[i]
      ensures CodeMarks(code) == {RealMod(i)}
    {
      ModifierMark(i);
    }
  }

  /** One bit of the layer word. */
  lemma {:induction false} OnlyBit(l: nat, j: nat)
    ensures TestAt(Power2(l), j) <==> j == l
    decreases j
  {
    if l > 0 && j > 0 {
      assert Power2(l) / 2 == Power2(l - 1) && Power2(l) % 2 == 0;
      OnlyBit(l - 1, j - 1);
    } else if l > 0 {
      assert Power2(l) % 2 == 0;
    } else if j > 0 {
      TestZero(j - 1);
    }
  }

  /** A layer number beyond the layer word names no layer. */
  lemma {:induction false} LayerMarks(layer: nat)
    ensures Layers(LayerBit(layer)) == if layer < 16 then {Layer(layer)} else {}
  {
    forall j: nat
      ensures TestAt(LayerBit(layer), j) <==> layer < 16 && j == layer
    {
      if layer < 16 {
        OnlyBit(layer, j);
      } else {
        TestZero(j);
      }
    }
  }

  /** The five bits behind the kind: its lowest bit counts sixteen. */
  lemma {:induction false} LayerFieldIs(kind: Action, layer: nat, code: Action)
    requires (kind == 10 || kind == 11) && layer < 16 && code < 256
    ensures LayerField(Word(kind, layer as Action, code)) == if kind == 10 then layer else 16 + layer
  {
    var mods := layer as Action;
    if kind == 10 {
      assert (Word(10, mods, code) >> 8) & 0x1F == mods;
    } else {
      assert (Word(11, mods, code) >> 8) & 0x1F == mods + 16;
      assert (mods + 16) as nat == mods as nat + 16;
    }
  }

  /**
   * A key with modifiers: a basic key is registered with weak modifiers, a modifier
   * key or none at all puts on real ones.
   */
  lemma {:induction false} ModifiedKeyHolds(right: bool, mods: Action, code: Action, tapped: bool)
    requires AreFields(0, mods, code)
    ensures var a, numbers := Word(if right then 1 else 0, mods, code), ModNumbers(mods, right);
      && (0x04 <= code <= 0xA4 ==> Share(a, tapped) == (set i | i in numbers :: WeakMod(i)) + {Keycode(code)})
      && (code == 0 ==> Share(a, tapped) == set i | i in numbers :: RealMod(i))
      && (forall k :: 0 <= k < 8 && code == MODIFIERS[k] ==>
            Share(a, tapped) == (set i | i in numbers :: RealMod(i)) + {RealMod(k)})
  {
    var kind: Action := if right then 1 else 0;
    FieldsOf(kind, mods, code);
    ModsAre(kind, mods, code, right);
    RegisteredMarks(code);
  }

  /** A mod-tap key: tapped, it registers its keycode; held, it puts on its modifiers. */
  lemma {:induction false} ModTapHolds(right: bool, mods: Action, code: Action)
    requires AreFields(2, mods, code)
    ensures var a := Word(if right then 3 else 2, mods, code);
      && (0x04 <= code <= 0xA4 ==> Share(a, true) == {Keycode(code)})
      && (forall k :: 0 <= k < 8 && code == MODIFIERS[k] ==> Share(a, true) == {RealMod(k)})
      && Share(a, false) == set i | i in ModNumbers(mods, right) :: RealMod(i)
  {
    var kind: Action := if right then 3 else 2;
    FieldsOf(kind, mods, code);
    ModsAre(kind, mods, code, right);
    RegisteredMarks(code);
  }

  /** A layer-tap key: tapped, it registers its keycode; held, it switches on its layer. */
  lemma {:induction false} LayerTapHolds(kind: Action, layer: nat, code: Action)
    requires (kind == 10 || kind == 11) && layer < 16 && code < 0xE8
    ensures var a := Word(kind, layer as Action, code);
      && (0x04 <= code <= 0xA4 ==> Share(a, true) == {Keycode(code)})
      && (forall k :: 0 <= k < 8 && code == MODIFIERS[k] ==> Share(a, true) == {RealMod(k)})
      && Share(a, false) == if kind == 10 then {Layer(layer)} else {}
  {
    FieldsOf(kind, layer as Action, code);
    LayerFieldIs(kind, layer, code);
    LayerMarks(layer);
    LayerMarks(16 + layer);
    RegisteredMarks(code);
  }

  /** A momentary layer key switches on its layer, however it was pressed. */
  lemma {:induction false} MomentaryHolds(kind: Action, layer: nat, tapped: bool)
    requires (kind == 10 || kind == 11) && layer < 16
    ensures Share(Word(kind, layer as Action, 0xF1), tapped) == if kind == 10 then {Layer(layer)} else {}
  {
    FieldsOf(kind, layer as Action, 0xF1);
    LayerFieldIs(kind, layer, 0xF1);
    LayerMarks(layer);
    LayerMarks(16 + layer);
  }

  lemma {:induction false} LowByte(kind: Action, mods: Action, byte: bv8)
    requires AreFields(kind, mods, byte as Action)
    ensures (Word(kind, mods, byte as Action) & 0xFF) as bv8 == byte
  {
  }

  lemma {:induction false} LayerModsShare(a: Action, byte: bv8, layer: nat, tapped: bool)
    requires KindOf(a) == 9 && ModsOf(a) as nat == layer && (a & 0xFF) as bv8 == byte
    ensures Share(a, tapped) == Layers(LayerBit(layer)) + Reals(byte)
  {
  }

  /** A layer with modifiers: the layer, and all eight modifier bits of the code. */
  lemma {:induction false} LayerModsHold(layer: nat, byte: bv8, tapped: bool)
    requires layer < 16
    ensures Share(Word(9, layer as Action, byte as Action), tapped)
            == {Layer(layer)} + set i | 0 <= i < 8 && byte & Bit(i) != 0 :: RealMod(i)
  {
    var a := Word(9, layer as Action, byte as Action);
    FieldsOf(9, layer as Action, byte as Action);
    LowByte(9, layer as Action, byte);
    LayerModsShare(a, byte, layer, tapped);
    LayerMarks(layer);
    assert Reals(byte) == set i | 0 <= i < 8 && byte & Bit(i) != 0 :: RealMod(i);
  }
}
