/**
 * The controller buttons the installer reads, as bits of the 64-bit
 * `hidKeysDown` mask of libnx's HID interface (`KEY_UP` and `KEY_DOWN`
 * each combine the d-pad and both sticks).
 */
module Keys {

  type KeyMask = bv64

  const KEY_A: KeyMask := 1 << 0
  const KEY_B: KeyMask := 1 << 1
  const KEY_PLUS: KeyMask := 1 << 10
  const KEY_DUP: KeyMask := 1 << 13
  const KEY_DDOWN: KeyMask := 1 << 15
  const KEY_LSTICK_UP: KeyMask := 1 << 17
  const KEY_LSTICK_DOWN: KeyMask := 1 << 19
  const KEY_RSTICK_UP: KeyMask := 1 << 21
  const KEY_RSTICK_DOWN: KeyMask := 1 << 23
  const KEY_UP: KeyMask := KEY_DUP | KEY_LSTICK_UP | KEY_RSTICK_UP
  const KEY_DOWN: KeyMask := KEY_DDOWN | KEY_LSTICK_DOWN | KEY_RSTICK_DOWN

  /** `kDown & key` taken as a condition, as the C++ `if` does. */
  predicate Pressed(kDown: KeyMask, key: KeyMask)
  {
    kDown & key != 0
  }
}
