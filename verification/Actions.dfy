/**
 * The 16-bit action word a keymap assigns to a key, its bit fields, and the two
 * pure classifications of it that the tap/hold resolver consults.
 */
module Actions {

  type Action = bv16

  const ACTION_NO: Action := 0
  const ACTION_TRANSPARENT: Action := 1

  const ACT_LMODS: Action := 0
  const ACT_RMODS: Action := 1
  const ACT_LMODS_TAP: Action := 2
  const ACT_RMODS_TAP: Action := 3
  const ACT_SWAP_HANDS: Action := 6
  const ACT_LAYER_MODS: Action := 9
  const ACT_LAYER_TAP: Action := 10
  const ACT_LAYER_TAP_EXT: Action := 11

  const OP_TAP_TOGGLE: Action := 0xF0
  const OP_ON_OFF: Action := 0xF1
  const OP_OFF_ON: Action := 0xF2
  const OP_SET_CLEAR: Action := 0xF3
  const OP_ONESHOT: Action := 0xF4
  const OP_SH_TAP_TOGGLE: Action := 0xF1

  const KC_NO: Action := 0
  const KC_A: Action := 0x04
  const KC_EXSEL: Action := 0xA4
  const KC_LEFT_CTRL: Action := 0xE0
  const KC_RIGHT_GUI: Action := 0xE7

  function KindOf(a: Action): Action { a >> 12 }
  function CodeOf(a: Action): Action { a & 0xFF }
  function ModsOf(a: Action): Action { (a >> 8) & 0xF }

  predicate IsModifierKeycode(code: Action) { KC_LEFT_CTRL <= code <= KC_RIGHT_GUI }

  /** Whether pressing a key with this action starts a tap-or-hold decision. */
  predicate IsTapAction(a: Action) {
    if KindOf(a) in {ACT_LMODS_TAP, ACT_RMODS_TAP, ACT_LAYER_TAP, ACT_LAYER_TAP_EXT} then
      CodeOf(a) <= KC_RIGHT_GUI || CodeOf(a) == OP_TAP_TOGGLE || CodeOf(a) == OP_ONESHOT
    else if KindOf(a) == ACT_SWAP_HANDS then
      CodeOf(a) <= KC_RIGHT_GUI || CodeOf(a) == OP_SH_TAP_TOGGLE
    else
      false
  }

  /**
   * Whether the release of a key that was down before the tapping key must wait
   * until the tapping key is decided: modifiers and layers are retained.
   */
  predicate IsRetained(a: Action, tapCount: nat) {
    if KindOf(a) == ACT_LMODS || KindOf(a) == ACT_RMODS then
      (ModsOf(a) != 0 && CodeOf(a) == KC_NO) || IsModifierKeycode(CodeOf(a))
    else if KindOf(a) == ACT_LMODS_TAP || KindOf(a) == ACT_RMODS_TAP then
      (ModsOf(a) != 0 && tapCount == 0) || IsModifierKeycode(CodeOf(a))
    else if KindOf(a) == ACT_LAYER_TAP || KindOf(a) == ACT_LAYER_TAP_EXT then
      CodeOf(a) < OP_TAP_TOGGLE || CodeOf(a) in {OP_ON_OFF, OP_OFF_ON, OP_SET_CLEAR}
    else
      false
  }
}
