/**
 * The values that travel through the key-event engine: matrix positions, key
 * events and key records, and the 16-bit wrapping clock that stamps them.
 */
module KeyEvents {

  /** A key matrix position. */
  datatype KeyPos = KeyPos(row: nat, col: nat)

  datatype EventType = TickEvent | KeyEvent | EncoderCwEvent | EncoderCcwEvent | ComboEvent

  /** A reading of the 16-bit millisecond timer. */
  type Time16 = t: int | 0 <= t < 0x1_0000

  datatype Event = Event(key: KeyPos, time: Time16, kind: EventType, pressed: bool) {
    predicate IsTick() { kind == TickEvent }
  }

  /** Tap information attached to a record; the count is four bits wide. */
  datatype TapInfo = TapInfo(interrupted: bool, count: nat)

  const NO_TAP := TapInfo(false, 0)

  datatype Record = Record(event: Event, tap: TapInfo)

  /** The all-zero record, which stands for "no tapping key". */
  const NO_RECORD := Record(Event(KeyPos(0, 0), 0, TickEvent, false), NO_TAP)

  /** Time elapsed from `b` to `a` on the wrapping clock. */
  function TimerDiff16(a: Time16, b: Time16): (d: Time16)
    ensures (b + d) % 0x1_0000 == a
  {
    (a - b) % 0x1_0000
  }
}
